/** `verification/verify_chain.py`: replays the lines of each ledger file,
    rechecking every entry's hash and signature, and aggregates the verdicts
    of all `.jsonl` files in name order. */
module VerifyChain {
  import opened Base
  import opened Text
  import opened Sorting
  import opened Json
  import opened Primitives
  import opened Hashing
  import opened VerifySignature

  const LEDGER_SUFFIX: string := ".jsonl"

  /** What one line contributes to `verify_file`. */
  datatype LineStep =
    | Skip                  // blank or whitespace-only
    | BadJson               // JSONDecodeError: `verify_file` returns False at once
    | Crash(error: Error)   // an exception `verify_file` does not catch
    | Checked(ok: bool)     // both checks were made; `ok` when both passed

  /** One iteration of the loop in `verify_file`. */
  function CheckLine(lib: Lib, publicKeyHex: string, line: string): (r: LineStep)
    ensures r.Skip? <==> Blank(line)
    ensures r.Crash? ==> r.error == NotADict || r.error == PrevHashNotString
    ensures r.Crash? || r.Checked? ==> lib.loads(line).Some?
    ensures r.Checked? ==> lib.loads(line).value.JObj?
  {
    if Strip(line) == [] then Skip
    else
      match lib.loads(line)
      case None => BadJson
      case Some(entry) =>
        if !entry.JObj? then Crash(NotADict)
        else
          var previousHash := Lookup(entry.fields, PREVIOUS_HASH);
          match ComputeEntryHash(lib, entry.fields, previousHash)
          case Err(e) => Crash(e)
          case Ok(computed) =>
            Checked(JStr(computed) == Lookup(entry.fields, ENTRY_HASH)
                    && VerifyEntrySignature(lib, entry, publicKeyHex))
  }

  /** A line that lets the file stay valid. */
  predicate Passes(step: LineStep)
  {
    step.Skip? || step == Checked(true)
  }

  /** A line that ends the replay early. */
  predicate Stops(step: LineStep)
  {
    step.BadJson? || step.Crash?
  }

  predicate AllPass(steps: seq<LineStep>)
  {
    forall i :: 0 <= i < |steps| ==> Passes(steps[i])
  }

  predicate NoStop(steps: seq<LineStep>)
  {
    forall i :: 0 <= i < |steps| ==> !Stops(steps[i])
  }

  /** The step of every line, in file order. */
  function Steps(lib: Lib, publicKeyHex: string, lines: seq<string>): (r: seq<LineStep>)
    ensures |r| == |lines|
  {
    seq(|lines|, i requires 0 <= i < |lines| => CheckLine(lib, publicKeyHex, lines[i]))
  }

  /** Steps are taken line by line, independently of the neighbouring lines. */
  lemma StepsConcat(lib: Lib, publicKeyHex: string, a: seq<string>, b: seq<string>)
    ensures Steps(lib, publicKeyHex, a + b) == Steps(lib, publicKeyHex, a) + Steps(lib, publicKeyHex, b)
  {
    var sa, sb := Steps(lib, publicKeyHex, a), Steps(lib, publicKeyHex, b);
    forall i | 0 <= i < |a + b| ensures Steps(lib, publicKeyHex, a + b)[i] == (sa + sb)[i] {
      if i < |a| {
        assert (a + b)[i] == a[i];
      } else {
        assert (a + b)[i] == b[i - |a|];
      }
    }
  }

  /** The result of the loop over the remaining lines' steps when `valid` is
      the flag so far: a JSON error returns False, an uncaught exception
      propagates, and otherwise the flag falls to False at the first failed
      check and the scan goes on. */
  function Replay(steps: seq<LineStep>, valid: bool): Result<bool>
  {
    if steps == [] then Ok(valid)
    else
      match steps[0]
      case Skip => Replay(steps[1..], valid)
      case BadJson => Ok(false)
      case Crash(e) => Err(e)
      case Checked(ok) => Replay(steps[1..], valid && ok)
  }

  /** `verify_file`: an unreadable file is invalid; otherwise its lines are
      replayed from `valid = True`. */
  function FileVerdict(lib: Lib, publicKeyHex: string, content: Content): (r: Result<bool>)
    ensures r == Ok(true) ==> content.Lines?
    ensures content.Unreadable? ==> r == Ok(false)
  {
    match content
    case Unreadable => Ok(false)
    case Lines(lines) => Replay(Steps(lib, publicKeyHex, lines), true)
  }

  /** `verify_file(file_path, public_key_hex)`. */
  method VerifyFile(lib: Lib, content: Content, publicKeyHex: string) returns (r: Result<bool>)
    ensures r == FileVerdict(lib, publicKeyHex, content)
  {
    if content.Unreadable? {
      return Ok(false);
    }
    var lines := content.lines;
    ghost var steps := Steps(lib, publicKeyHex, lines);
    var valid := true;
    var i := 0;
    while i < |lines|
      invariant 0 <= i <= |lines|
      invariant Replay(steps, true) == Replay(steps[i..], valid)
    {
      var line := lines[i];
      assert steps[i..][0] == steps[i] == CheckLine(lib, publicKeyHex, line);
      assert steps[i..][1..] == steps[i + 1..];
      if Strip(line) != [] {
        var parsed := lib.loads(line);
        if parsed.None? {
          return Ok(false);
        }
        var entry := parsed.value;
        if !entry.JObj? {
          return Err(NotADict);
        }
        var previousHash := Lookup(entry.fields, PREVIOUS_HASH);
        var computed := ComputeEntryHash(lib, entry.fields, previousHash);
        if computed.Err? {
          return Err(computed.error);
        }
        if JStr(computed.value) != Lookup(entry.fields, ENTRY_HASH) {
          valid := false;
        }
        if !VerifyEntrySignature(lib, entry, publicKeyHex) {
          valid := false;
        }
      }
      i := i + 1;
    }
    assert steps[i..] == [];
    return Ok(valid);
  }

  /** The replay is valid exactly when the flag starts true and every step
      is a blank line or passes both checks. */
  lemma {:induction false} ReplayTrueIff(steps: seq<LineStep>, valid: bool)
    ensures Replay(steps, valid) == Ok(true) <==> valid && AllPass(steps)
  {
    if steps != [] {
      var v' := if steps[0].Checked? then valid && steps[0].ok else valid;
      ReplayTrueIff(steps[1..], v');
      assert AllPass(steps) <==> Passes(steps[0]) && AllPass(steps[1..]) by {
        if Passes(steps[0]) && AllPass(steps[1..]) {
          forall i | 0 < i < |steps| ensures Passes(steps[i]) {
            assert steps[i] == steps[1..][i - 1];
          }
        }
      }
    }
  }

  /** `verify_file` returns True exactly when the file is readable and each
      line is blank or parses and passes both the hash recheck and
      `verify_entry_signature`; an empty file is valid. */
  lemma FileValidIff(lib: Lib, publicKeyHex: string, content: Content)
    ensures FileVerdict(lib, publicKeyHex, content) == Ok(true) <==>
      content.Lines? && forall i :: 0 <= i < |content.lines| ==> Passes(CheckLine(lib, publicKeyHex, content.lines[i]))
    ensures content == Lines([]) ==> FileVerdict(lib, publicKeyHex, content) == Ok(true)
  {
    if content.Lines? {
      var steps := Steps(lib, publicKeyHex, content.lines);
      ReplayTrueIff(steps, true);
      assert forall i :: 0 <= i < |steps| ==> steps[i] == CheckLine(lib, publicKeyHex, content.lines[i]);
    }
  }

  /** Steps that neither stop the replay nor fail a check only pass on the
      flag; the rest of the file is replayed as if they were not there. */
  lemma {:induction false} ReplayConcat(a: seq<LineStep>, b: seq<LineStep>, valid: bool)
    requires NoStop(a)
    ensures Replay(a + b, valid) == Replay(b, valid && AllPass(a))
  {
    if a == [] {
      assert a + b == b;
    } else {
      assert (a + b)[0] == a[0];
      assert (a + b)[1..] == a[1..] + b;
      assert !Stops(a[0]);
      assert NoStop(a[1..]) by {
        forall i | 0 <= i < |a[1..]| ensures !Stops(a[1..][i]) {
          assert a[1..][i] == a[i + 1];
        }
      }
      var v' := if a[0].Checked? then valid && a[0].ok else valid;
      ReplayConcat(a[1..], b, v');
      assert AllPass(a) <==> Passes(a[0]) && AllPass(a[1..]) by {
        if Passes(a[0]) && AllPass(a[1..]) {
          forall i | 0 < i < |a| ensures Passes(a[i]) {
            assert a[i] == a[1..][i - 1];
          }
        }
      }
    }
  }

  /** The first line that is not valid JSON makes the file invalid, whatever
      follows it: later lines are never examined. */
  lemma FirstBadJsonFails(lib: Lib, publicKeyHex: string, a: seq<string>, line: string, b: seq<string>)
    requires NoStop(Steps(lib, publicKeyHex, a))
    requires CheckLine(lib, publicKeyHex, line) == BadJson
    ensures FileVerdict(lib, publicKeyHex, Lines(a + [line] + b)) == Ok(false)
  {
    StepsConcat(lib, publicKeyHex, a, [line] + b);
    StepsConcat(lib, publicKeyHex, [line], b);
    assert a + [line] + b == a + ([line] + b);
    var rest := Steps(lib, publicKeyHex, [line] + b);
    assert rest[0] == BadJson;
    ReplayConcat(Steps(lib, publicKeyHex, a), rest, true);
  }

  /** A failed check only lowers the flag: the scan goes on, and a later
      exception still propagates. */
  lemma {:induction false} FailedCheckKeepsScanning(steps: seq<LineStep>)
    ensures Replay(steps, false) ==
      (match Replay(steps, true)
       case Ok(_) => Ok(false)
       case Err(e) => Err(e))
  {
    if steps != [] {
      FailedCheckKeepsScanning(steps[1..]);
      if steps[0].Checked? && !steps[0].ok {
        FailedCheckKeepsScanning(steps[1..]);
      }
    }
  }

  /** A skipped step anywhere changes nothing. */
  lemma {:induction false} SkipIgnored(a: seq<LineStep>, b: seq<LineStep>, valid: bool)
    ensures Replay(a + [Skip] + b, valid) == Replay(a + b, valid)
  {
    if a == [] {
      assert a + [Skip] + b == [Skip] + b;
      assert ([Skip] + b)[0] == Skip;
      assert ([Skip] + b)[1..] == b;
      assert a + b == b;
    } else {
      assert (a + [Skip] + b)[0] == a[0] && (a + b)[0] == a[0];
      assert (a + [Skip] + b)[1..] == a[1..] + [Skip] + b;
      assert (a + b)[1..] == a[1..] + b;
      var v' := if a[0].Checked? then valid && a[0].ok else valid;
      SkipIgnored(a[1..], b, v');
    }
  }

  /** Inserting a blank or whitespace-only line anywhere in a file changes
      nothing. */
  lemma BlankLineIgnored(lib: Lib, publicKeyHex: string, a: seq<string>, line: string, b: seq<string>)
    requires Blank(line)
    ensures FileVerdict(lib, publicKeyHex, Lines(a + [line] + b)) == FileVerdict(lib, publicKeyHex, Lines(a + b))
  {
    StepsConcat(lib, publicKeyHex, a + [line], b);
    StepsConcat(lib, publicKeyHex, a, [line]);
    StepsConcat(lib, publicKeyHex, a, b);
    assert Steps(lib, publicKeyHex, [line]) == [Skip];
    SkipIgnored(Steps(lib, publicKeyHex, a), Steps(lib, publicKeyHex, b), true);
  }

  /** The first line that raises makes `verify_file` raise the same
      exception, whatever follows it. */
  lemma FirstCrashRaises(lib: Lib, publicKeyHex: string, a: seq<string>, line: string, b: seq<string>)
    requires NoStop(Steps(lib, publicKeyHex, a))
    requires CheckLine(lib, publicKeyHex, line).Crash?
    ensures FileVerdict(lib, publicKeyHex, Lines(a + [line] + b)) == Err(CheckLine(lib, publicKeyHex, line).error)
  {
    StepsConcat(lib, publicKeyHex, a, [line] + b);
    assert a + [line] + b == a + ([line] + b);
    var rest := Steps(lib, publicKeyHex, [line] + b);
    assert rest[0] == CheckLine(lib, publicKeyHex, line);
    ReplayConcat(Steps(lib, publicKeyHex, a), rest, true);
  }

  /** An object line whose `previous_hash` is not a string raises in
      `compute_entry_hash`, although `verify_entry_signature` alone would
      return False for it. */
  lemma PrevHashNotStringCrashes(lib: Lib, publicKeyHex: string, line: string)
    requires !Blank(line)
    requires lib.loads(line).Some? && lib.loads(line).value.JObj?
    requires !Lookup(lib.loads(line).value.fields, PREVIOUS_HASH).JStr?
    ensures CheckLine(lib, publicKeyHex, line) == Crash(PrevHashNotString)
    ensures !VerifyEntrySignature(lib, lib.loads(line).value, publicKeyHex)
  {
  }

  /** An object line without a string `previous_hash`, after lines that do not
      stop the replay, makes `verify_file` raise rather than return False,
      although `verify_entry_signature` alone would return False. */
  lemma MissingPreviousHashRaises(lib: Lib, publicKeyHex: string, a: seq<string>, line: string, b: seq<string>)
    requires NoStop(Steps(lib, publicKeyHex, a))
    requires !Blank(line)
    requires lib.loads(line).Some? && lib.loads(line).value.JObj?
    requires !Lookup(lib.loads(line).value.fields, PREVIOUS_HASH).JStr?
    ensures FileVerdict(lib, publicKeyHex, Lines(a + [line] + b)) == Err(PrevHashNotString)
    ensures !VerifyEntrySignature(lib, lib.loads(line).value, publicKeyHex)
  {
    PrevHashNotStringCrashes(lib, publicKeyHex, line);
    FirstCrashRaises(lib, publicKeyHex, a, line, b);
  }

  /** The hash recheck in `verify_file` adds nothing to
      `verify_entry_signature`, which already recomputes the hash. */
  lemma HashRecheckRedundant(lib: Lib, publicKeyHex: string, line: string)
    requires CheckLine(lib, publicKeyHex, line).Checked?
    ensures CheckLine(lib, publicKeyHex, line).ok == VerifyEntrySignature(lib, lib.loads(line).value, publicKeyHex)
  {
    VerifyEntrySignatureIff(lib, lib.loads(line).value, publicKeyHex);
  }

  /** Every step of a concatenation passes exactly when every step of both
      parts does. */
  lemma AllPassConcat(x: seq<LineStep>, y: seq<LineStep>)
    ensures AllPass(x + y) <==> AllPass(x) && AllPass(y)
  {
    if AllPass(x + y) {
      forall i | 0 <= i < |x| ensures Passes(x[i]) { assert x[i] == (x + y)[i]; }
      forall i | 0 <= i < |y| ensures Passes(y[i]) { assert y[i] == (x + y)[i + |x|]; }
    }
  }

  /** No line is compared with the line before it: two valid files spliced
      together, in either order, form a valid file. */
  lemma SplicedFilesAccepted(lib: Lib, publicKeyHex: string, a: seq<string>, b: seq<string>)
    requires FileVerdict(lib, publicKeyHex, Lines(a)) == Ok(true)
    requires FileVerdict(lib, publicKeyHex, Lines(b)) == Ok(true)
    ensures FileVerdict(lib, publicKeyHex, Lines(a + b)) == Ok(true)
    ensures FileVerdict(lib, publicKeyHex, Lines(b + a)) == Ok(true)
  {
    var sa, sb := Steps(lib, publicKeyHex, a), Steps(lib, publicKeyHex, b);
    ReplayTrueIff(sa, true);
    ReplayTrueIff(sb, true);
    StepsConcat(lib, publicKeyHex, a, b);
    StepsConcat(lib, publicKeyHex, b, a);
    AllPassConcat(sa, sb);
    AllPassConcat(sb, sa);
    ReplayTrueIff(sa + sb, true);
    ReplayTrueIff(sb + sa, true);
  }

  /** Deleting any line of a valid file leaves a valid file. */
  lemma DeletedLineAccepted(lib: Lib, publicKeyHex: string, a: seq<string>, line: string, b: seq<string>)
    requires FileVerdict(lib, publicKeyHex, Lines(a + [line] + b)) == Ok(true)
    ensures FileVerdict(lib, publicKeyHex, Lines(a + b)) == Ok(true)
  {
    var sa, sl, sb := Steps(lib, publicKeyHex, a), Steps(lib, publicKeyHex, [line]), Steps(lib, publicKeyHex, b);
    StepsConcat(lib, publicKeyHex, a + [line], b);
    StepsConcat(lib, publicKeyHex, a, [line]);
    StepsConcat(lib, publicKeyHex, a, b);
    var whole := sa + sl + sb;
    assert FileVerdict(lib, publicKeyHex, Lines(a + [line] + b)) == Replay(whole, true);
    assert FileVerdict(lib, publicKeyHex, Lines(a + b)) == Replay(sa + sb, true);
    ReplayTrueIff(whole, true);
    ReplayTrueIff(sa + sb, true);
    AllPassWithout(sa, sl, sb);
  }

  /** Leaving out a middle part of steps that all pass leaves steps that
      all pass. */
  lemma AllPassWithout(sa: seq<LineStep>, sl: seq<LineStep>, sb: seq<LineStep>)
    requires AllPass(sa + sl + sb)
    ensures AllPass(sa + sb)
  {
    var whole := sa + sl + sb;
    forall i | 0 <= i < |sa + sb| ensures Passes((sa + sb)[i]) {
      if i < |sa| {
        assert (sa + sb)[i] == whole[i];
      } else {
        assert (sa + sb)[i] == whole[i + |sl|];
      }
    }
  }

  /** The `.jsonl` entries of a directory listing, in listing order. */
  function LedgerFiles(listing: seq<(string, Content)>): seq<(string, Content)>
  {
    if listing == [] then []
    else (if EndsWith(listing[0].0, LEDGER_SUFFIX) then [listing[0]] else [])
         + LedgerFiles(listing[1..])
  }

  /** The ledger files are exactly the `.jsonl` entries of the listing, and
      distinct names stay distinct. */
  lemma {:induction false} LedgerFilesFacts(listing: seq<(string, Content)>)
    ensures forall f :: f in LedgerFiles(listing) <==> f in listing && EndsWith(f.0, LEDGER_SUFFIX)
    ensures DistinctKeys(listing) ==> DistinctKeys(LedgerFiles(listing))
  {
    if listing != [] {
      LedgerFilesFacts(listing[1..]);
      assert listing == [listing[0]] + listing[1..];
      var rest := LedgerFiles(listing[1..]);
      forall f | f in rest ensures f in listing[1..] && (DistinctKeys(listing) ==> f.0 != listing[0].0) {
        var k :| 0 <= k < |listing[1..]| && listing[1..][k] == f;
        assert listing[k + 1] == f;
      }
    }
  }

  /** The loop of `verify_all` over `files`, from the flag `allValid`: an
      exception from `verify_file` propagates, otherwise any invalid file
      makes the verdict False. */
  function AllVerdict(lib: Lib, publicKeyHex: string, files: seq<(string, Content)>, allValid: bool): Result<bool>
  {
    if files == [] then Ok(allValid)
    else
      match FileVerdict(lib, publicKeyHex, files[0].1)
      case Err(e) => Err(e)
      case Ok(ok) => AllVerdict(lib, publicKeyHex, files[1..], allValid && ok)
  }

  /** `verify_all(public_key_hex)` over a directory listing of names and
      contents; the result is the verdict it prints, or the exception that
      escapes it. */
  method VerifyAll(lib: Lib, listing: seq<(string, Content)>, publicKeyHex: string) returns (r: Result<bool>)
    ensures r == AllVerdict(lib, publicKeyHex, SortByKey(LedgerFiles(listing)), true)
  {
    var files := SortByKey(LedgerFiles(listing));
    var allValid := true;
    var i := 0;
    while i < |files|
      invariant 0 <= i <= |files|
      invariant AllVerdict(lib, publicKeyHex, files, true) == AllVerdict(lib, publicKeyHex, files[i..], allValid)
    {
      assert files[i..][1..] == files[i + 1..];
      var ok := VerifyFile(lib, files[i].1, publicKeyHex);
      if ok.Err? {
        return Err(ok.error);
      }
      if !ok.value {
        allValid := false;
      }
      i := i + 1;
    }
    assert files[i..] == [];
    return Ok(allValid);
  }

  /** The aggregate verdict is True exactly when every file's verdict is
      True; with no files it is True. */
  lemma {:induction false} AllVerdictIff(lib: Lib, publicKeyHex: string, files: seq<(string, Content)>, allValid: bool)
    ensures AllVerdict(lib, publicKeyHex, files, allValid) == Ok(true) <==>
      allValid && forall i :: 0 <= i < |files| ==> FileVerdict(lib, publicKeyHex, files[i].1) == Ok(true)
  {
    if files != [] {
      var first := FileVerdict(lib, publicKeyHex, files[0].1);
      if first.Ok? {
        AllVerdictIff(lib, publicKeyHex, files[1..], allValid && first.value);
      }
      AllFilesValidCons(lib, publicKeyHex, files);
    }
  }

  lemma AllFilesValidCons(lib: Lib, publicKeyHex: string, files: seq<(string, Content)>)
    requires files != []
    ensures (forall i :: 0 <= i < |files| ==> FileVerdict(lib, publicKeyHex, files[i].1) == Ok(true)) <==>
      && FileVerdict(lib, publicKeyHex, files[0].1) == Ok(true)
      && forall i :: 0 <= i < |files[1..]| ==> FileVerdict(lib, publicKeyHex, files[1..][i].1) == Ok(true)
  {
    if forall i :: 0 <= i < |files[1..]| ==> FileVerdict(lib, publicKeyHex, files[1..][i].1) == Ok(true) {
      forall i | 0 <= i < |files| && i > 0 ensures FileVerdict(lib, publicKeyHex, files[i].1) == Ok(true) {
        assert files[i] == files[1..][i - 1];
      }
    }
  }

  /** `verify_all` reports valid exactly when every `.jsonl` file in the
      listing verifies; files with other names are ignored. */
  lemma VerifyAllValidIff(lib: Lib, listing: seq<(string, Content)>, publicKeyHex: string)
    ensures AllVerdict(lib, publicKeyHex, SortByKey(LedgerFiles(listing)), true) == Ok(true) <==>
      forall f :: f in listing && EndsWith(f.0, LEDGER_SUFFIX) ==> FileVerdict(lib, publicKeyHex, f.1) == Ok(true)
  {
    var files := SortByKey(LedgerFiles(listing));
    LedgerFilesFacts(listing);
    SortByKeyFacts(LedgerFiles(listing));
    AllVerdictIff(lib, publicKeyHex, files, true);
    assert forall f :: f in files <==> f in listing && EndsWith(f.0, LEDGER_SUFFIX);
    if forall i :: 0 <= i < |files| ==> FileVerdict(lib, publicKeyHex, files[i].1) == Ok(true) {
      forall f | f in listing && EndsWith(f.0, LEDGER_SUFFIX) ensures FileVerdict(lib, publicKeyHex, f.1) == Ok(true) {
        assert f in files;
        var i :| 0 <= i < |files| && files[i] == f;
      }
    }
  }

  /** The order in which the directory is listed does not matter: listings
      holding the same names and contents give the same verdict. */
  lemma VerifyAllIgnoresListingOrder(lib: Lib, l1: seq<(string, Content)>, l2: seq<(string, Content)>, publicKeyHex: string)
    requires DistinctKeys(l1) && DistinctKeys(l2)
    requires forall f :: f in l1 <==> f in l2
    ensures AllVerdict(lib, publicKeyHex, SortByKey(LedgerFiles(l1)), true)
         == AllVerdict(lib, publicKeyHex, SortByKey(LedgerFiles(l2)), true)
  {
    LedgerFilesFacts(l1);
    LedgerFilesFacts(l2);
    SortIgnoresOrder(LedgerFiles(l1), LedgerFiles(l2));
  }
}
