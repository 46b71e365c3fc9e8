/** The linkage the ledger is meant to have, and `verify_file` with that
    linkage checked: each entry's `previous_hash` is the `entry_hash` of the
    entry before it, and the first entry of a day's file starts at
    "GENESIS". */
module Linkage {
  import opened Base
  import opened Text
  import opened Json
  import opened Primitives
  import opened Hashing
  import opened VerifyChain
  import SignalEngine

  /** `entries` form one chain starting at `start`. */
  predicate Chained(entries: seq<Dict>, start: Json)
  {
    && (|entries| > 0 ==> Lookup(entries[0], PREVIOUS_HASH) == start)
    && forall i :: 0 < i < |entries| ==> Lookup(entries[i], PREVIOUS_HASH) == Lookup(entries[i - 1], ENTRY_HASH)
  }

  /** A chain on `start` is an entry on `start` followed by a chain on that
      entry's hash. */
  lemma ChainedCons(entry: Dict, rest: seq<Dict>, start: Json)
    ensures Chained([entry] + rest, start) <==>
      Lookup(entry, PREVIOUS_HASH) == start && Chained(rest, Lookup(entry, ENTRY_HASH))
  {
    var all := [entry] + rest;
    assert all[0] == entry;
    forall i | 0 < i < |all| ensures all[i] == rest[i - 1] {
    }
    if Chained(all, start) {
      forall i | 0 < i < |rest|
        ensures Lookup(rest[i], PREVIOUS_HASH) == Lookup(rest[i - 1], ENTRY_HASH)
      {
        assert Lookup(all[i + 1], PREVIOUS_HASH) == Lookup(all[i], ENTRY_HASH);
      }
      if |rest| > 0 {
        assert Lookup(all[1], PREVIOUS_HASH) == Lookup(all[0], ENTRY_HASH);
      }
    }
    if Lookup(entry, PREVIOUS_HASH) == start && Chained(rest, Lookup(entry, ENTRY_HASH)) {
      forall i | 0 < i < |all|
        ensures Lookup(all[i], PREVIOUS_HASH) == Lookup(all[i - 1], ENTRY_HASH)
      {
        if i == 1 {
          assert Lookup(rest[0], PREVIOUS_HASH) == Lookup(entry, ENTRY_HASH);
        } else {
          assert all[i - 1] == rest[i - 2];
          assert Lookup(rest[i - 1], PREVIOUS_HASH) == Lookup(rest[i - 2], ENTRY_HASH);
        }
      }
    }
  }

  /** The entries of a file: the object each non-blank line parses to. */
  function Entries(lib: Lib, lines: seq<string>): seq<Dict>
    decreases |lines|
  {
    if lines == [] then []
    else
      var rest := Entries(lib, lines[1..]);
      if Blank(lines[0]) then rest
      else
        match lib.loads(lines[0])
        case Some(JObj(fields)) => [fields] + rest
        case _ => rest
  }

  /** The loop of `verify_file` with the linkage checked as well: a line
      whose entry passes both checks also has to name, as its
      `previous_hash`, the `entry_hash` of the entry before it (`expected`). */
  function LinkedReplay(lib: Lib, publicKeyHex: string, lines: seq<string>, expected: Json, valid: bool): Result<bool>
    decreases |lines|
  {
    if lines == [] then Ok(valid)
    else
      match CheckLine(lib, publicKeyHex, lines[0])
      case Skip => LinkedReplay(lib, publicKeyHex, lines[1..], expected, valid)
      case BadJson => Ok(false)
      case Crash(e) => Err(e)
      case Checked(ok) =>
        var fields := lib.loads(lines[0]).value.fields;
        LinkedReplay(lib, publicKeyHex, lines[1..], Lookup(fields, ENTRY_HASH),
                     valid && ok && Lookup(fields, PREVIOUS_HASH) == expected)
  }

  /** `verify_file` as its documentation describes it: the hash and
      signature of every entry, and the chain from "GENESIS". */
  function LinkedFileVerdict(lib: Lib, publicKeyHex: string, content: Content): Result<bool>
  {
    match content
    case Unreadable => Ok(false)
    case Lines(lines) => LinkedReplay(lib, publicKeyHex, lines, JStr(SignalEngine.GENESIS), true)
  }

  /** Every line passes exactly when the first one does and every later
      one does. */
  lemma AllPassCons(lib: Lib, publicKeyHex: string, lines: seq<string>)
    requires lines != []
    ensures AllPass(Steps(lib, publicKeyHex, lines)) <==>
      Passes(CheckLine(lib, publicKeyHex, lines[0])) && AllPass(Steps(lib, publicKeyHex, lines[1..]))
  {
    assert lines == [lines[0]] + lines[1..];
    StepsConcat(lib, publicKeyHex, [lines[0]], lines[1..]);
    var first := Steps(lib, publicKeyHex, [lines[0]]);
    assert first[0] == CheckLine(lib, publicKeyHex, lines[0]);
    AllPassConcat(first, Steps(lib, publicKeyHex, lines[1..]));
  }

  /** A line that gets checked contributes its object to the entries. */
  lemma EntriesChecked(lib: Lib, publicKeyHex: string, lines: seq<string>)
    requires lines != [] && CheckLine(lib, publicKeyHex, lines[0]).Checked?
    ensures Entries(lib, lines) == [lib.loads(lines[0]).value.fields] + Entries(lib, lines[1..])
  {
  }

  /** The linked replay accepts exactly when the flag is still set, every
      line passes the checks of `verify_file`, and the entries form one
      chain from `expected`. */
  lemma {:induction false} LinkedReplayIff(lib: Lib, publicKeyHex: string, lines: seq<string>, expected: Json, valid: bool)
    ensures LinkedReplay(lib, publicKeyHex, lines, expected, valid) == Ok(true) <==>
      valid && AllPass(Steps(lib, publicKeyHex, lines)) && Chained(Entries(lib, lines), expected)
    decreases |lines|
  {
    if lines != [] {
      var rest := lines[1..];
      AllPassCons(lib, publicKeyHex, lines);
      match CheckLine(lib, publicKeyHex, lines[0])
      case Skip =>
        LinkedReplayIff(lib, publicKeyHex, rest, expected, valid);
      case BadJson =>
      case Crash(_) =>
      case Checked(ok) =>
        var fields := lib.loads(lines[0]).value.fields;
        LinkedReplayIff(lib, publicKeyHex, rest, Lookup(fields, ENTRY_HASH), valid && ok && Lookup(fields, PREVIOUS_HASH) == expected);
        EntriesChecked(lib, publicKeyHex, lines);
        ChainedCons(fields, Entries(lib, rest), expected);
    }
  }

  /** A file passes the linked check exactly when it passes `verify_file`
      and its entries form one chain from "GENESIS". */
  lemma LinkedFileVerdictIff(lib: Lib, publicKeyHex: string, content: Content)
    ensures LinkedFileVerdict(lib, publicKeyHex, content) == Ok(true) <==>
      FileVerdict(lib, publicKeyHex, content) == Ok(true) && Chained(Entries(lib, content.lines), JStr(SignalEngine.GENESIS))
  {
    if content.Lines? {
      LinkedReplayIff(lib, publicKeyHex, content.lines, JStr(SignalEngine.GENESIS), true);
      ReplayTrueIff(Steps(lib, publicKeyHex, content.lines), true);
    }
  }

  /** The hash the entry after `entries` has to name. */
  function ChainEnd(entries: seq<Dict>, start: Json): Json
  {
    if entries == [] then start else Lookup(entries[|entries| - 1], ENTRY_HASH)
  }

  /** A chain splits anywhere into a chain and a chain on where the first
      part ends. */
  lemma {:induction false} ChainedConcat(x: seq<Dict>, y: seq<Dict>, start: Json)
    ensures Chained(x + y, start) <==> Chained(x, start) && Chained(y, ChainEnd(x, start))
    decreases |x|
  {
    if x == [] {
      assert x + y == y;
    } else {
      var h := Lookup(x[0], ENTRY_HASH);
      assert x + y == [x[0]] + (x[1..] + y);
      assert x == [x[0]] + x[1..];
      ChainedCons(x[0], x[1..] + y, start);
      ChainedCons(x[0], x[1..], start);
      ChainedConcat(x[1..], y, h);
      assert ChainEnd(x[1..], h) == ChainEnd(x, start) by {
        if x[1..] != [] {
          assert x[1..][|x[1..]| - 1] == x[|x| - 1];
        }
      }
    }
  }

  /** The entries of two pieces of a file are the entries of each. */
  lemma {:induction false} EntriesConcat(lib: Lib, a: seq<string>, b: seq<string>)
    ensures Entries(lib, a + b) == Entries(lib, a) + Entries(lib, b)
    decreases |a|
  {
    if a == [] {
      assert a + b == b;
    } else {
      assert (a + b)[0] == a[0] && (a + b)[1..] == a[1..] + b;
      EntriesConcat(lib, a[1..], b);
      var rest := Entries(lib, a[1..]);
      assert Entries(lib, a + b) == (if Blank(a[0]) then [] else match lib.loads(a[0]) case Some(JObj(fields)) => [fields] case _ => []) + (rest + Entries(lib, b));
      assert Entries(lib, a) == (if Blank(a[0]) then [] else match lib.loads(a[0]) case Some(JObj(fields)) => [fields] case _ => []) + rest;
    }
  }

  /** Taking out an entry that another entry follows breaks a chain, unless
      that entry's hash equals its own `previous_hash`. */
  lemma DeletionBreaksChain(before: seq<Dict>, entry: Dict, after: seq<Dict>, start: Json)
    requires Chained(before + [entry] + after, start) && after != []
    requires Lookup(entry, ENTRY_HASH) != Lookup(entry, PREVIOUS_HASH)
    ensures !Chained(before + after, start)
  {
    var end := ChainEnd(before, start);
    var h := Lookup(entry, ENTRY_HASH);
    assert before + [entry] + after == before + ([entry] + after);
    ChainedConcat(before, [entry] + after, start);
    ChainedCons(entry, after, end);
    assert Lookup(entry, PREVIOUS_HASH) == end && Chained(after, h);
    ChainedFirst(after, h);
    NotChainedOn(after, end);
    ChainedConcat(before, after, start);
  }

  /** A sequence whose first entry names another hash is no chain on `start`. */
  lemma NotChainedOn(entries: seq<Dict>, start: Json)
    requires entries != [] && Lookup(entries[0], PREVIOUS_HASH) != start
    ensures !Chained(entries, start)
  {
  }

  /** The first entry of a chain names the chain's start. */
  lemma ChainedFirst(entries: seq<Dict>, start: Json)
    requires Chained(entries, start) && entries != []
    ensures Lookup(entries[0], PREVIOUS_HASH) == start
  {
  }

  /** Deleting an entry that another entry follows makes the linked check
      reject the file, unless the deleted entry's hash equals its own
      `previous_hash` (a fixed point of SHA-256). */
  lemma DeletedEntryDetected(lib: Lib, publicKeyHex: string, a: seq<string>, line: string, b: seq<string>)
    requires LinkedFileVerdict(lib, publicKeyHex, Lines(a + [line] + b)) == Ok(true)
    requires !Blank(line) && Entries(lib, b) != []
    requires lib.loads(line).Some? && lib.loads(line).value.JObj?
    requires var fields := lib.loads(line).value.fields;
      Lookup(fields, ENTRY_HASH) != Lookup(fields, PREVIOUS_HASH)
    ensures LinkedFileVerdict(lib, publicKeyHex, Lines(a + b)) != Ok(true)
  {
    var f := lib.loads(line).value.fields;
    EntriesConcat(lib, a + [line], b);
    EntriesConcat(lib, a, [line]);
    EntriesConcat(lib, a, b);
    assert Entries(lib, [line]) == [f] by {
      assert [line][1..] == [];
    }
    LinkedFileVerdictIff(lib, publicKeyHex, Lines(a + [line] + b));
    LinkedFileVerdictIff(lib, publicKeyHex, Lines(a + b));
    DeletionBreaksChain(Entries(lib, a), f, Entries(lib, b), JStr(SignalEngine.GENESIS));
  }
}
