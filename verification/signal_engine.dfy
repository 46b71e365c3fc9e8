/** `engine/signal_engine.py`: the ledger writer. It finds where today's chain
    ends, skips candidates already recorded, and appends each new entry
    hashed onto the previous one and signed. */
module SignalEngine {
  import opened Base
  import opened Text
  import opened Json
  import opened Primitives
  import opened Hashing
  import opened Signing

  const GENESIS: string := "GENESIS"
  const RULESET_VERSION: string := "1.1.0"

  const ASSET: string := "asset"
  const SCORE: string := "score"
  const STATE: string := "state"
  const RULESET_VERSION_KEY: string := "ruleset_version"
  const TIMESTAMP_UTC: string := "timestamp_utc"

  /** One verdict row from the producer, with the fields the writer reads. */
  datatype Candidate = Candidate(token: string, verdict: string, score: Option<real>, timestampUtc: string)

  /** How a run of `process_signals` ends. */
  datatype Outcome =
    | SignerUnavailable(error: Error)   // Signer() raised; logged, nothing else done
    | NoCandidates                      // nothing to do
    | Raised(error: Error)              // an exception escaped the function
    | Appended(count: nat)              // the count it logs

  /** The entries a batch sealed, in order, and the exception that ended it
      early, if any. */
  datatype Batch = Batch(records: seq<Dict>, failure: Option<Error>)

  /** `f"{asset}_{timestamp}"`, the identity used for deduplication. */
  function Uid(asset: string, timestamp: string): string
  {
    asset + "_" + timestamp
  }

  function CandidateUid(c: Candidate): string
  {
    Uid(c.token, c.timestampUtc)
  }

  // ---------------------------------------------------------------------
  // load_last_entry and the starting previous_hash

  /** `load_last_entry`: the parsed last line of today's file, or JSON null
      (Python's None) when the file is missing, unreadable or empty, its last
      line is blank, or that line does not parse. */
  function LoadLastEntry(lib: Lib, file: Option<Content>): (r: Json)
    ensures r != JNull ==>
      && file.Some? && file.value.Lines? && file.value.lines != []
      && var last := Strip(file.value.lines[|file.value.lines| - 1]);
         last != [] && lib.loads(last) == Some(r)
    ensures file.Some? && file.value.Lines? && file.value.lines != [] ==>
      var last := Strip(file.value.lines[|file.value.lines| - 1]);
      last != [] && lib.loads(last).Some? ==> r == lib.loads(last).value
    ensures file.None? || file == Some(Unreadable) ==> r == JNull
  {
    match file
    case None => JNull
    case Some(Unreadable) => JNull
    case Some(Lines(lines)) =>
      if lines == [] then JNull
      else
        var last := Strip(lines[|lines| - 1]);
        if last == [] then JNull
        else
          match lib.loads(last)
          case None => JNull
          case Some(v) => v
  }

  /** `last_entry['entry_hash'] if last_entry else "GENESIS"`: a falsy last
      entry starts a new chain; indexing an object without the key, or a
      value that is not an object, raises. The result need not be a string. */
  function StartHash(last: Json): (r: Result<Json>)
    ensures !Truthy(last) ==> r == Ok(JStr(GENESIS))
    ensures Truthy(last) && r.Ok? ==> last.JObj? && (ENTRY_HASH, r.value) in last.fields
    ensures r.Err? ==> Truthy(last) && r.error == (if last.JObj? then MissingKey else NotSubscriptable)
  {
    if !Truthy(last) then Ok(JStr(GENESIS))
    else if last.JObj? then
      if HasKey(last.fields, ENTRY_HASH) then
        LookupPresent(last.fields, ENTRY_HASH);
        Ok(Lookup(last.fields, ENTRY_HASH))
      else Err(MissingKey)
    else Err(NotSubscriptable)
  }

  /** A missing file, or one whose last line is blank, starts at "GENESIS":
      in particular each new day's file restarts the chain. */
  lemma NoLastEntryStartsAtGenesis(lib: Lib, file: Option<Content>)
    requires file.None? || file == Some(Unreadable) || file == Some(Lines([]))
      || (file.value.Lines? && Blank(file.value.lines[|file.value.lines| - 1]))
    ensures StartHash(LoadLastEntry(lib, file)) == Ok(JStr(GENESIS))
  {
  }

  // ---------------------------------------------------------------------
  // The identities already in today's file

  /** `json.loads` of every non-blank line, in order; the first line that
      does not parse raises. */
  function ParseLines(lib: Lib, lines: seq<string>): (r: Result<seq<Json>>)
    ensures r.Err? ==> r.error == InvalidJson
    ensures r.Ok? ==> |r.value| <= |lines|
  {
    if lines == [] then Ok([])
    else if Strip(lines[0]) == [] then ParseLines(lib, lines[1..])
    else
      match lib.loads(lines[0])
      case None => Err(InvalidJson)
      case Some(v) =>
        match ParseLines(lib, lines[1..])
        case Err(e) => Err(e)
        case Ok(rest) => Ok([v] + rest)
  }

  /** A result with `prefix` put in front of its values; an error stays. */
  function Extend<T>(prefix: seq<T>, r: Result<seq<T>>): Result<seq<T>>
  {
    if r.Err? then r else Ok(prefix + r.value)
  }

  lemma ExtendEmpty<T>(r: Result<seq<T>>)
    ensures Extend([], r) == r
  {
    if r.Ok? {
      assert [] + r.value == r.value;
    }
  }

  lemma ExtendAssoc<T>(a: seq<T>, b: seq<T>, r: Result<seq<T>>)
    ensures Extend(a, Extend(b, r)) == Extend(a + b, r)
  {
    if r.Ok? {
      assert a + (b + r.value) == (a + b) + r.value;
    }
  }

  /** One line of the scan: a blank line is skipped, one that does not
      parse ends it, any other contributes its value. */
  lemma ParseLinesStep(lib: Lib, lines: seq<string>, i: nat)
    requires i < |lines|
    ensures ParseLines(lib, lines[i..]) ==
      if Strip(lines[i]) == [] then ParseLines(lib, lines[i + 1..])
      else if lib.loads(lines[i]).None? then Err(InvalidJson)
      else Extend([lib.loads(lines[i]).value], ParseLines(lib, lines[i + 1..]))
  {
    assert lines[i..][0] == lines[i] && lines[i..][1..] == lines[i + 1..];
  }

  /** The identity of a parsed line: `.get` of a missing key is None, which
      the f-string renders as "None"; `.get` on a value that is not an
      object raises. */
  function EntryUid(lib: Lib, entry: Json): (r: Result<string>)
    ensures r.Err? <==> !entry.JObj?
    ensures r.Err? ==> r.error == NotADict
  {
    if !entry.JObj? then Err(NotADict)
    else Ok(Uid(PyStr(lib, Lookup(entry.fields, ASSET)), PyStr(lib, Lookup(entry.fields, TIMESTAMP_UTC))))
  }

  /** The set of identities of the parsed lines. */
  function Uids(lib: Lib, entries: seq<Json>): (r: Result<set<string>>)
    ensures r.Err? ==> r.error == NotADict
  {
    if entries == [] then Ok({})
    else
      match EntryUid(lib, entries[0])
      case Err(e) => Err(e)
      case Ok(uid) =>
        match Uids(lib, entries[1..])
        case Err(e) => Err(e)
        case Ok(rest) => Ok({uid} + rest)
  }

  /** The scan fails exactly when some parsed line is not an object. */
  lemma {:induction false} UidsFail(lib: Lib, entries: seq<Json>)
    ensures Uids(lib, entries).Err? <==> exists i :: 0 <= i < |entries| && !entries[i].JObj?
  {
    if entries != [] {
      UidsFail(lib, entries[1..]);
      assert forall i :: 1 <= i < |entries| ==> entries[i] == entries[1..][i - 1];
    }
  }

  /** A scan that succeeds yields exactly the identities of the lines. */
  lemma {:induction false} UidsMembers(lib: Lib, entries: seq<Json>)
    ensures Uids(lib, entries).Ok? ==>
      forall u :: u in Uids(lib, entries).value <==> exists i :: 0 <= i < |entries| && EntryUid(lib, entries[i]) == Ok(u)
  {
    if entries != [] && Uids(lib, entries).Ok? {
      UidsMembers(lib, entries[1..]);
      var ids := Uids(lib, entries).value;
      forall u | u in ids ensures exists i :: 0 <= i < |entries| && EntryUid(lib, entries[i]) == Ok(u) {
        if u != EntryUid(lib, entries[0]).value {
          var i :| 0 <= i < |entries[1..]| && EntryUid(lib, entries[1..][i]) == Ok(u);
          assert entries[1..][i] == entries[i + 1];
        }
      }
      forall u | exists i :: 0 <= i < |entries| && EntryUid(lib, entries[i]) == Ok(u)
        ensures u in ids
      {
        var i :| 0 <= i < |entries| && EntryUid(lib, entries[i]) == Ok(u);
        if i > 0 {
          assert EntryUid(lib, entries[1..][i - 1]) == Ok(u);
        }
      }
    }
  }

  /** A result with `ids` added to its set; an error stays. */
  function UnionWith(ids: set<string>, r: Result<set<string>>): Result<set<string>>
  {
    if r.Err? then r else Ok(ids + r.value)
  }

  lemma UnionWithEmpty(r: Result<set<string>>)
    ensures UnionWith({}, r) == r
  {
    if r.Ok? {
      assert {} + r.value == r.value;
    }
  }

  lemma UnionWithAssoc(a: set<string>, b: set<string>, r: Result<set<string>>)
    ensures UnionWith(a, UnionWith(b, r)) == UnionWith(a + b, r)
  {
    if r.Ok? {
      assert a + (b + r.value) == (a + b) + r.value;
    }
  }

  /** One entry of the scan: a value that is not an object ends it, an
      object contributes its identity. */
  lemma UidsStep(lib: Lib, entries: seq<Json>, j: nat)
    requires j < |entries|
    ensures Uids(lib, entries[j..]) ==
      if !entries[j].JObj? then Err(NotADict)
      else UnionWith({EntryUid(lib, entries[j]).value}, Uids(lib, entries[j + 1..]))
  {
    assert entries[j..][0] == entries[j] && entries[j..][1..] == entries[j + 1..];
  }

  /** The identities in today's file; a file that exists but cannot be read
      raises here. */
  function ExistingIds(lib: Lib, file: Option<Content>): Result<set<string>>
  {
    match file
    case None => Ok({})
    case Some(Unreadable) => Err(CannotOpen)
    case Some(Lines(lines)) =>
      match ParseLines(lib, lines)
      case Err(e) => Err(e)
      case Ok(entries) => Uids(lib, entries)
  }

  // ---------------------------------------------------------------------
  // Deduplication, sealing and appending

  /** The candidates the loop does not skip: those whose identity is neither
      in `ids` nor that of an earlier candidate it kept. */
  function Fresh(candidates: seq<Candidate>, ids: set<string>): seq<Candidate>
  {
    FreshFrom(candidates, 0, ids)
  }

  /** `Fresh` of the candidates from index `k` on. */
  function FreshFrom(candidates: seq<Candidate>, k: nat, ids: set<string>): seq<Candidate>
    decreases |candidates| - k
  {
    if k >= |candidates| then []
    else if CandidateUid(candidates[k]) in ids then FreshFrom(candidates, k + 1, ids)
    else [candidates[k]] + FreshFrom(candidates, k + 1, ids + {CandidateUid(candidates[k])})
  }

  /** `float(candidate['score']) if candidate['score'] else 0.0`. */
  function ScoreOf(lib: Lib, score: Option<real>): real
  {
    if score.None? || score.value == 0.0 then 0.0 else lib.toFloat(score.value)
  }

  /** The entry dict before sealing, keys in insertion order. */
  function BuildEntry(lib: Lib, c: Candidate, previousHash: Json): Dict
  {
    [ (ASSET, JStr(c.token)),
      (SCORE, JFloat(ScoreOf(lib, c.score))),
      (STATE, JStr(c.verdict)),
      (RULESET_VERSION_KEY, JStr(RULESET_VERSION)),
      (TIMESTAMP_UTC, JStr(c.timestampUtc)),
      (PREVIOUS_HASH, previousHash) ]
  }

  /** `entry['entry_hash'] = entry_hash` then `entry['signature'] = signature`. */
  function Seal(entry: Dict, entryHash: string, signature: string): Dict
  {
    Put(Put(entry, ENTRY_HASH, JStr(entryHash)), SIGNATURE, JStr(signature))
  }

  /** Builds one candidate's entry on `previousHash`, hashes it, signs the
      hash and adds both: the sealed entry and its hash, or the exception
      hashing or signing raised. */
  function SealOne(lib: Lib, seed: seq<byte>, c: Candidate, previousHash: Json): Result<(Dict, string)>
  {
    var entry := BuildEntry(lib, c, previousHash);
    match ComputeEntryHash(lib, entry, previousHash)
    case Err(e) => Err(e)
    case Ok(h) =>
      match SignHash(lib, seed, h)
      case Err(e) => Err(e)
      case Ok(sig) => Ok((Seal(entry, h, sig), h))
  }

  /** Seals each candidate in turn, each chained to the hash of the one
      before; the first exception ends the batch. */
  function SealAll(lib: Lib, seed: seq<byte>, candidates: seq<Candidate>, previousHash: Json): Batch
  {
    if candidates == [] then Batch([], None)
    else
      match SealOne(lib, seed, candidates[0], previousHash)
      case Err(e) => Batch([], Some(e))
      case Ok((record, h)) =>
        var rest := SealAll(lib, seed, candidates[1..], JStr(h));
        Batch([record] + rest.records, rest.failure)
  }

  /** `json.dumps(entry) + '\n'`. */
  function RecordLine(lib: Lib, record: Dict): string
  {
    Dumps(JObj(record), lib.floatRepr, DEFAULT) + "\n"
  }

  /** `f.write(text)` on a file opened for appending, as `readlines()` will
      see it: text written after a last line without a newline joins that
      line. */
  function AppendText(lines: seq<string>, text: string): seq<string>
  {
    if lines != [] && !EndsWithNewline(lines[|lines| - 1]) then
      lines[..|lines| - 1] + [lines[|lines| - 1] + text]
    else lines + [text]
  }

  /** The file after each record is written in turn. */
  function AppendRecords(lib: Lib, lines: seq<string>, records: seq<Dict>): seq<string>
  {
    if records == [] then lines
    else AppendText(AppendRecords(lib, lines, records[..|records| - 1]), RecordLine(lib, records[|records| - 1]))
  }

  /** The batch followed by what an earlier part of the run already sealed. */
  function After(done: seq<Dict>, b: Batch): Batch
  {
    Batch(done + b.records, b.failure)
  }

  /** A turn of the main loop that meets a new identity seals that
      candidate first: that may fail the batch, otherwise the rest chains
      onto the new hash. */
  lemma BatchSeals(lib: Lib, seed: seq<byte>, candidates: seq<Candidate>, k: nat, ids: set<string>, previousHash: Json)
    requires k < |candidates| && CandidateUid(candidates[k]) !in ids
    ensures var c := candidates[k];
      var sealed := SealOne(lib, seed, c, previousHash);
      var b := SealAll(lib, seed, FreshFrom(candidates, k, ids), previousHash);
      && (sealed.Err? ==> b == Batch([], Some(sealed.error)))
      && (sealed.Ok? ==>
            b == After([sealed.value.0], SealAll(lib, seed, FreshFrom(candidates, k + 1, ids + {CandidateUid(c)}), JStr(sealed.value.1))))
  {
    var c := candidates[k];
    var rest := FreshFrom(candidates, k + 1, ids + {CandidateUid(c)});
    assert FreshFrom(candidates, k, ids) == [c] + rest;
    assert ([c] + rest)[0] == c && ([c] + rest)[1..] == rest;
  }

  /** What is done so far, followed by a batch that starts with one more
      sealed entry, is what is done with that entry added. */
  lemma AfterShift(done: seq<Dict>, record: Dict, b: Batch)
    ensures After(done, After([record], b)) == After(done + [record], b)
  {
    assert done + ([record] + b.records) == (done + [record]) + b.records;
  }

  /** What the main loop still appends from candidate `k` on, knowing
      `ids` and chaining on `previousHash`: the loop itself, one candidate
      per turn. */
  function Pending(lib: Lib, seed: seq<byte>, candidates: seq<Candidate>, k: nat, ids: set<string>, previousHash: Json): Batch
    decreases |candidates| - k
  {
    if k >= |candidates| then Batch([], None)
    else
      var uid := CandidateUid(candidates[k]);
      if uid in ids then Pending(lib, seed, candidates, k + 1, ids, previousHash)
      else
        match SealOne(lib, seed, candidates[k], previousHash)
        case Err(e) => Batch([], Some(e))
        case Ok((record, h)) => After([record], Pending(lib, seed, candidates, k + 1, ids + {uid}, JStr(h)))
  }

  /** The loop seals exactly the fresh candidates, in order. */
  lemma {:induction false} PendingSealsFresh(lib: Lib, seed: seq<byte>, candidates: seq<Candidate>, k: nat, ids: set<string>, previousHash: Json)
    ensures Pending(lib, seed, candidates, k, ids, previousHash) == SealAll(lib, seed, FreshFrom(candidates, k, ids), previousHash)
    decreases |candidates| - k
  {
    if k < |candidates| {
      var uid := CandidateUid(candidates[k]);
      if uid in ids {
        PendingSealsFresh(lib, seed, candidates, k + 1, ids, previousHash);
      } else {
        BatchSeals(lib, seed, candidates, k, ids, previousHash);
        var sealed := SealOne(lib, seed, candidates[k], previousHash);
        if sealed.Ok? {
          PendingSealsFresh(lib, seed, candidates, k + 1, ids + {uid}, JStr(sealed.value.1));
        }
      }
    }
  }

  /** Writing one more record appends its line to the file written so far. */
  lemma AppendRecordsSnoc(lib: Lib, lines: seq<string>, done: seq<Dict>, record: Dict)
    ensures AppendRecords(lib, lines, done + [record]) == AppendText(AppendRecords(lib, lines, done), RecordLine(lib, record))
  {
    assert (done + [record])[..|done|] == done;
  }

  // ---------------------------------------------------------------------
  // process_signals

  /** What `process_signals` does, given the environment it reads the key
      from, the candidates the producer returns, and today's file (`None`
      when it does not exist): the outcome and the file afterwards. */
  function Run(lib: Lib, environ: map<string, string>, candidates: seq<Candidate>, file: Option<Content>): (r: (Outcome, Option<Content>))
    ensures r.0.SignerUnavailable? <==> LoadSigningKey(None, environ).Err?
    ensures r.0.NoCandidates? <==> LoadSigningKey(None, environ).Ok? && candidates == []
    ensures r.0.SignerUnavailable? || r.0.NoCandidates? ==> r.1 == file
    ensures r.0.Appended? ==> r.1.Some? && r.1.value.Lines?
  {
    match LoadSigningKey(None, environ)
    case Err(e) => (SignerUnavailable(e), file)
    case Ok(seed) =>
      if candidates == [] then (NoCandidates, file)
      else
        match StartHash(LoadLastEntry(lib, file))
        case Err(e) => (Raised(e), file)
        case Ok(start) =>
          match ExistingIds(lib, file)
          case Err(e) => (Raised(e), file)
          case Ok(ids) =>
            var before := if file.Some? && file.value.Lines? then file.value.lines else [];
            var b := SealAll(lib, seed, Fresh(candidates, ids), start);
            var after := Some(Lines(AppendRecords(lib, before, b.records)));
            if b.failure.Some? then (Raised(b.failure.value), after)
            else (Appended(|b.records|), after)
  }

  /** The loop that reads today's existing entries. */
  method ReadExistingEntries(lib: Lib, lines: seq<string>) returns (r: Result<seq<Json>>)
    ensures r == ParseLines(lib, lines)
  {
    var existing: seq<Json> := [];
    var i := 0;
    assert lines[i..] == lines;
    ExtendEmpty(ParseLines(lib, lines));
    while i < |lines|
      invariant 0 <= i <= |lines|
      invariant ParseLines(lib, lines) == Extend(existing, ParseLines(lib, lines[i..]))
    {
      ParseLinesStep(lib, lines, i);
      if Strip(lines[i]) != [] {
        var parsed := lib.loads(lines[i]);
        if parsed.None? {
          return Err(InvalidJson);
        }
        ExtendAssoc(existing, [parsed.value], ParseLines(lib, lines[i + 1..]));
        existing := existing + [parsed.value];
      }
      i := i + 1;
    }
    assert lines[i..] == [];
    assert existing + [] == existing;
    return Ok(existing);
  }

  /** The loop that builds `existing_ids`. */
  method CollectIds(lib: Lib, entries: seq<Json>) returns (r: Result<set<string>>)
    ensures r == Uids(lib, entries)
  {
    var ids: set<string> := {};
    var j := 0;
    assert entries[j..] == entries;
    UnionWithEmpty(Uids(lib, entries));
    while j < |entries|
      invariant 0 <= j <= |entries|
      invariant Uids(lib, entries) == UnionWith(ids, Uids(lib, entries[j..]))
    {
      UidsStep(lib, entries, j);
      var e := entries[j];
      if !e.JObj? {
        return Err(NotADict);
      }
      var uid := Uid(PyStr(lib, Lookup(e.fields, ASSET)), PyStr(lib, Lookup(e.fields, TIMESTAMP_UTC)));
      UnionWithAssoc(ids, {uid}, Uids(lib, entries[j + 1..]));
      ids := ids + {uid};
      j := j + 1;
    }
    assert entries[j..] == [];
    assert ids + {} == ids;
    return Ok(ids);
  }

  /** The body of the main loop for a candidate that is not skipped: build
      the entry on `previousHash`, hash it, sign the hash and add both. */
  method SealCandidate(lib: Lib, signer: Signer, c: Candidate, previousHash: Json) returns (r: Result<(Dict, string)>)
    requires signer.lib == lib
    ensures r == SealOne(lib, signer.signingKey, c, previousHash)
  {
    var entry := BuildEntry(lib, c, previousHash);
    var entryHash := ComputeEntryHash(lib, entry, previousHash);
    if entryHash.Err? {
      return Err(entryHash.error);
    }
    entry := Put(entry, ENTRY_HASH, JStr(entryHash.value));
    var signature := signer.SignEntry(entryHash.value);
    if signature.Err? {
      return Err(signature.error);
    }
    entry := Put(entry, SIGNATURE, JStr(signature.value));
    return Ok((entry, entryHash.value));
  }

  /** The main loop: skip known identities, seal and append each new
      candidate, then advance `previous_hash`. */
  method AppendBatch(lib: Lib, signer: Signer, candidates: seq<Candidate>, existingIds: set<string>, start: Json, lines: seq<string>)
    returns (written: seq<string>, count: nat, failure: Option<Error>)
    requires signer.lib == lib
    ensures var b := SealAll(lib, signer.signingKey, Fresh(candidates, existingIds), start);
      written == AppendRecords(lib, lines, b.records) && count == |b.records| && failure == b.failure
  {
    ghost var key := signer.signingKey;
    ghost var whole := Pending(lib, key, candidates, 0, existingIds, start);
    PendingSealsFresh(lib, key, candidates, 0, existingIds, start);
    ghost var done: seq<Dict> := [];
    var ids := existingIds;
    var previousHash := start;
    written := lines;
    count := 0;
    var k := 0;
    assert done + whole.records == whole.records;
    while k < |candidates|
      invariant 0 <= k <= |candidates|
      invariant whole == After(done, Pending(lib, key, candidates, k, ids, previousHash))
      invariant written == AppendRecords(lib, lines, done) && count == |done|
    {
      var c := candidates[k];
      var uid := Uid(c.token, c.timestampUtc);
      if uid in ids {
        k := k + 1;
        continue;
      }
      var sealed := SealCandidate(lib, signer, c, previousHash);
      if sealed.Err? {
        assert done + [] == done;
        return written, count, Some(sealed.error);
      }
      var (entry, entryHash) := sealed.value;
      AfterShift(done, entry, Pending(lib, key, candidates, k + 1, ids + {uid}, JStr(entryHash)));
      AppendRecordsSnoc(lib, lines, done, entry);
      written := AppendText(written, RecordLine(lib, entry));
      previousHash := JStr(entryHash);
      count := count + 1;
      ids := ids + {uid};
      done := done + [entry];
      k := k + 1;
    }
    assert done + [] == done;
    failure := None;
  }

  /** `process_signals()`. */
  method ProcessSignals(lib: Lib, environ: map<string, string>, candidates: seq<Candidate>, file: Option<Content>)
    returns (outcome: Outcome, after: Option<Content>)
    ensures (outcome, after) == Run(lib, environ, candidates, file)
    ensures outcome.SignerUnavailable? || outcome.NoCandidates? ==> after == file
  {
    var created := Signer.Create(lib, None, environ);
    if created.Err? {
      return SignerUnavailable(created.error), file;
    }
    var signer := created.value;
    if |candidates| == 0 {
      return NoCandidates, file;
    }
    var start := StartHash(LoadLastEntry(lib, file));
    if start.Err? {
      return Raised(start.error), file;
    }
    var lines: seq<string> := [];
    var existing: seq<Json> := [];
    if file.Some? {
      if file.value.Unreadable? {
        return Raised(CannotOpen), file;
      }
      lines := file.value.lines;
      var parsed := ReadExistingEntries(lib, lines);
      if parsed.Err? {
        return Raised(parsed.error), file;
      }
      existing := parsed.value;
    }
    var ids := CollectIds(lib, existing);
    if ids.Err? {
      return Raised(ids.error), file;
    }
    var written, count, failure := AppendBatch(lib, signer, candidates, ids.value, start.value, lines);
    after := Some(Lines(written));
    if failure.Some? {
      outcome := Raised(failure.value);
    } else {
      outcome := Appended(count);
    }
  }
}
