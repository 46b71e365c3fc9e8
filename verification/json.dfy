/** JSON values as Python's `json` module produces and reads them, Python
    dicts as insertion-ordered key/value sequences, and `json.dumps` with the
    default `ensure_ascii=True`. */
module Json {
  import opened Base
  import opened Text
  import opened Sorting

  /** A float is a `real`; its text is given by an abstract, deterministic
      rendering passed to `Dumps`. An object keeps its insertion order. */
  datatype Json =
    | JNull
    | JBool(b: bool)
    | JInt(i: int)
    | JFloat(x: real)
    | JStr(s: string)
    | JArr(items: seq<Json>)
    | JObj(fields: seq<(string, Json)>)

  type Dict = seq<(string, Json)>

  /** `d.get(k)`: the value stored under `k`, or `None` (JSON null). */
  function Lookup(d: Dict, k: string): (v: Json)
    ensures v != JNull ==> (k, v) in d
  {
    if d == [] then JNull
    else if d[0].0 == k then d[0].1
    else Lookup(d[1..], k)
  }

  predicate HasKey(d: Dict, k: string)
  {
    exists i :: 0 <= i < |d| && d[i].0 == k
  }

  /** A key that is present is found with one of its pairs' values. */
  lemma {:induction false} LookupPresent(d: Dict, k: string)
    requires HasKey(d, k)
    ensures (k, Lookup(d, k)) in d
  {
    if d[0].0 != k {
      var i :| 0 <= i < |d| && d[i].0 == k;
      assert d[1..][i - 1].0 == k;
      LookupPresent(d[1..], k);
    }
  }

  /** The first pair with a key is the one `get` finds. */
  lemma {:induction false} LookupFirst(d: Dict, i: nat)
    requires i < |d| && forall j :: 0 <= j < i ==> d[j].0 != d[i].0
    ensures Lookup(d, d[i].0) == d[i].1
  {
    if i > 0 {
      assert d[1..][i - 1] == d[i];
      LookupFirst(d[1..], i - 1);
    }
  }

  /** Two dicts holding the same key/value pairs give the same value for
      every key, whatever order their keys were inserted in. */
  lemma LookupSamePairs(d1: Dict, d2: Dict, k: string)
    requires DistinctKeys(d1) && DistinctKeys(d2)
    requires forall p :: p in d1 <==> p in d2
    ensures Lookup(d1, k) == Lookup(d2, k)
  {
    var v1, v2 := Lookup(d1, k), Lookup(d2, k);
    if v1 != JNull {
      LookupPresentIn(d2, k, v1);
    } else if v2 != JNull {
      LookupPresentIn(d1, k, v2);
    }
  }

  /** In a dict with distinct keys, the value stored under a present key is
      the one `get` finds. */
  lemma LookupPresentIn(d: Dict, k: string, v: Json)
    requires DistinctKeys(d) && (k, v) in d
    ensures Lookup(d, k) == v
  {
    var i :| 0 <= i < |d| && d[i] == (k, v);
    LookupFirst(d, i);
  }

  /** Adding a pair under a new key keeps the keys distinct, and a
      well-formed value to a well-formed object keeps it well formed. */
  lemma AppendNewKey(d: Dict, k: string, v: Json)
    requires DistinctKeys(d) && !HasKey(d, k)
    ensures DistinctKeys(d + [(k, v)])
    ensures forall k' :: HasKey(d + [(k, v)], k') <==> HasKey(d, k') || k' == k
    ensures WellFormed(JObj(d)) && WellFormed(v) ==> WellFormed(JObj(d + [(k, v)]))
  {
    var r := d + [(k, v)];
    if WellFormed(JObj(d)) && WellFormed(v) {
      forall i | 0 <= i < |r| ensures WellFormed(r[i].1) {
        if i < |d| { assert r[i] == d[i]; }
      }
    }
    forall k' | HasKey(r, k') ensures HasKey(d, k') || k' == k {
      var i :| 0 <= i < |r| && r[i].0 == k';
      if i < |d| { assert d[i].0 == k'; }
    }
    forall k' | HasKey(d, k') ensures HasKey(r, k') {
      var i :| 0 <= i < |d| && d[i].0 == k';
      assert r[i].0 == k';
    }
    assert r[|d|].0 == k;
  }

  /** A key `get` finds a value for is present. */
  lemma LookupPresentIndex(d: Dict, k: string)
    requires Lookup(d, k) != JNull
    ensures HasKey(d, k)
  {
    var i :| 0 <= i < |d| && d[i] == (k, Lookup(d, k));
  }

  /** `d[k] = v`: replaces the value in place when `k` is present, otherwise
      adds the pair at the end. */
  function Put(d: Dict, k: string, v: Json): (r: Dict)
    ensures Lookup(r, k) == v
  {
    if d == [] then [(k, v)]
    else if d[0].0 == k then [(k, v)] + d[1..]
    else [d[0]] + Put(d[1..], k, v)
  }

  /** `d[k] = v` leaves every other key's value alone, adds no pair but
      `(k, v)`, and keeps the keys distinct. */
  lemma {:induction false} PutFacts(d: Dict, k: string, v: Json)
    ensures forall k' :: k' != k ==> Lookup(Put(d, k, v), k') == Lookup(d, k')
    ensures forall p :: p in Put(d, k, v) ==> p == (k, v) || p in d
    ensures DistinctKeys(d) ==> DistinctKeys(Put(d, k, v))
  {
    if d != [] {
      assert forall p :: p in d[1..] ==> p in d;
      if d[0].0 != k {
        PutFacts(d[1..], k, v);
        PutTailKeys(d, k, v);
        assert Put(d, k, v) == [d[0]] + Put(d[1..], k, v);
      } else {
        assert Put(d, k, v) == [(k, v)] + d[1..];
      }
    }
  }

  /** In a dict with distinct keys whose first key is not `k`, setting `k`
      in the tail adds no pair under the first key. */
  lemma PutTailKeys(d: Dict, k: string, v: Json)
    requires d != [] && d[0].0 != k
    requires forall p :: p in Put(d[1..], k, v) ==> p == (k, v) || p in d[1..]
    ensures DistinctKeys(d) ==> forall p :: p in Put(d[1..], k, v) ==> p.0 != d[0].0
  {
    if DistinctKeys(d) {
      forall p | p in Put(d[1..], k, v) ensures p.0 != d[0].0 {
        if p != (k, v) {
          var i :| 0 <= i < |d[1..]| && d[1..][i] == p;
          assert d[i + 1] == p;
        }
      }
    }
  }

  /** `d.pop(k, None)`: removes the pair stored under `k`, if any. */
  function Pop(d: Dict, k: string): (r: Dict)
    ensures Lookup(r, k) == JNull
  {
    if d == [] then []
    else if d[0].0 == k then Pop(d[1..], k)
    else [d[0]] + Pop(d[1..], k)
  }

  /** Without `k`, `d[k] = v` appends the pair. */
  lemma {:induction false} PutAbsent(d: Dict, k: string, v: Json)
    requires !HasKey(d, k)
    ensures Put(d, k, v) == d + [(k, v)]
  {
    if d != [] {
      assert !HasKey(d[1..], k) by {
        forall i | 0 <= i < |d[1..]| ensures d[1..][i].0 != k { assert d[1..][i] == d[i + 1]; }
      }
      assert d[0].0 != k;
      PutAbsent(d[1..], k, v);
      assert Put(d, k, v) == [d[0]] + Put(d[1..], k, v);
      assert d + [(k, v)] == [d[0]] + (d[1..] + [(k, v)]);
    }
  }

  /** Popping distributes over concatenation. */
  lemma {:induction false} PopConcat(a: Dict, b: Dict, k: string)
    ensures Pop(a + b, k) == Pop(a, k) + Pop(b, k)
  {
    if a == [] {
      assert a + b == b;
    } else {
      assert (a + b)[0] == a[0] && (a + b)[1..] == a[1..] + b;
      PopConcat(a[1..], b, k);
    }
  }

  /** Without `k`, popping it changes nothing. */
  lemma {:induction false} PopAbsent(d: Dict, k: string)
    requires !HasKey(d, k)
    ensures Pop(d, k) == d
  {
    if d != [] {
      assert !HasKey(d[1..], k) by {
        forall i | 0 <= i < |d[1..]| ensures d[1..][i].0 != k { assert d[1..][i] == d[i + 1]; }
      }
      PopAbsent(d[1..], k);
    }
  }

  /** `d.pop(k, None)` keeps every other pair, in order, and nothing else. */
  lemma {:induction false} PopFacts(d: Dict, k: string)
    ensures forall k' :: k' != k ==> Lookup(Pop(d, k), k') == Lookup(d, k')
    ensures forall p :: p in Pop(d, k) <==> p in d && p.0 != k
    ensures DistinctKeys(d) ==> DistinctKeys(Pop(d, k))
  {
    if d != [] {
      PopFacts(d[1..], k);
      assert d == [d[0]] + d[1..];
      var t := Pop(d[1..], k);
      assert DistinctKeys(d) ==> forall p :: p in t ==> p.0 != d[0].0 by {
        if DistinctKeys(d) {
          forall p | p in t ensures p.0 != d[0].0 {
            var i :| 0 <= i < |d[1..]| && d[1..][i] == p;
            assert d[i + 1] == p;
          }
        }
      }
    }
  }

  /** Python truthiness of a parsed JSON value (`if x:`). */
  predicate Truthy(j: Json)
  {
    match j
    case JNull => false
    case JBool(b) => b
    case JInt(i) => i != 0
    case JFloat(x) => x != 0.0
    case JStr(s) => s != ""
    case JArr(items) => items != []
    case JObj(fields) => fields != []
  }

  /** The `\uXXXX` escape of one UTF-16 code unit, in lowercase hex. */
  function UnicodeEscape(u: int): (r: string)
    requires 0 <= u < 0x10000
    ensures |r| == 6 && IsAscii(r)
  {
    "\\u" + [HexDigit(u / 4096), HexDigit((u / 256) % 16), HexDigit((u / 16) % 16), HexDigit(u % 16)]
  }

  /** How `json.dumps` with `ensure_ascii` writes one character of a string:
      the two-character escapes, `\uXXXX` for anything outside printable
      ASCII, and a UTF-16 surrogate pair beyond the Basic Multilingual Plane. */
  function EscapeChar(c: char): string
  {
    var n := c as int;
    if c == '"' then "\\\""
    else if c == '\\' then "\\\\"
    else if c == '\n' then "\\n"
    else if c == '\r' then "\\r"
    else if c == '\t' then "\\t"
    else if n == 0x08 then "\\b"
    else if n == 0x0C then "\\f"
    else if 0x20 <= n <= 0x7E then [c]
    else if n < 0x10000 then UnicodeEscape(n)
    else
      var m := n - 0x10000;
      UnicodeEscape(0xD800 + m / 1024) + UnicodeEscape(0xDC00 + m % 1024)
  }

  function EscapeChars(s: string): string
  {
    if s == [] then "" else EscapeChar(s[0]) + EscapeChars(s[1..])
  }

  /** Every character is written as printable ASCII, never as a line break;
      printable characters other than the quote and the backslash stand for
      themselves. */
  lemma EscapeCharFacts(c: char)
    ensures var r := EscapeChar(c);
      IsAscii(r) && SingleLine(r) && |r| > 0
      && (' ' <= c <= '~' && c != '"' && c != '\\' ==> r == [c])
  {
  }

  lemma {:induction false} EscapeCharsFacts(s: string)
    ensures IsAscii(EscapeChars(s)) && SingleLine(EscapeChars(s))
  {
    if s != [] {
      EscapeCharFacts(s[0]);
      EscapeCharsFacts(s[1..]);
      var a, b := EscapeChar(s[0]), EscapeChars(s[1..]);
      assert forall i :: 0 <= i < |a + b| ==> (a + b)[i] == if i < |a| then a[i] else b[i - |a|];
    }
  }

  /** A JSON string literal: quoted, escaped, and pure ASCII. */
  function EncodeString(s: string): string
  {
    "\"" + EscapeChars(s) + "\""
  }

  lemma EncodeStringFacts(s: string)
    ensures var r := EncodeString(s);
      IsAscii(r) && SingleLine(r) && |r| >= 2 && r[0] == '"' && r[|r| - 1] == '"'
  {
    EscapeCharsFacts(s);
    var body := EscapeChars(s);
    assert forall i :: 0 <= i < |"\"" + body + "\""| ==>
      ("\"" + body + "\"")[i] == if i == 0 || i == |body| + 1 then '"' else body[i - 1];
  }

  /** `sep.join(parts)`. */
  function Join(sep: string, parts: seq<string>): string
  {
    if parts == [] then ""
    else if |parts| == 1 then parts[0]
    else parts[0] + sep + Join(sep, parts[1..])
  }

  /** The layout options of `json.dumps`: `sort_keys` and `separators`. */
  datatype Layout = Layout(sortKeys: bool, itemSep: string, keySep: string)

  /** `json.dumps(obj, sort_keys=True, separators=(',', ':'))`, the canonical form. */
  const CANONICAL := Layout(true, ",", ":")
  /** `json.dumps(obj)`, as each ledger line is written. */
  const DEFAULT := Layout(false, ", ", ": ")

  /** `json.dumps(v)` with the given layout; `floatRepr` renders floats. The
      members of an object are rendered, then ordered by key when `sortKeys`. */
  function Dumps(v: Json, floatRepr: real -> string, layout: Layout): (r: string)
    ensures v.JObj? ==> |r| >= 2 && r[0] == '{' && r[|r| - 1] == '}'
    decreases v, 1
  {
    match v
    case JNull => "null"
    case JBool(b) => if b then "true" else "false"
    case JInt(i) => IntToDecimal(i)
    case JFloat(x) => floatRepr(x)
    case JStr(s) => EncodeString(s)
    case JArr(items) =>
      "[" + Join(layout.itemSep, seq(|items|, i requires 0 <= i < |items| => Dumps(items[i], floatRepr, layout))) + "]"
    case JObj(fields) => DumpsFields(fields, floatRepr, layout)
  }

  /** The text of an object with the given fields. */
  function DumpsFields(fields: seq<(string, Json)>, floatRepr: real -> string, layout: Layout): (r: string)
    ensures |r| >= 2 && r[0] == '{' && r[|r| - 1] == '}'
    decreases JObj(fields), 0
  {
    var members := seq(|fields|, i requires 0 <= i < |fields| => (fields[i].0, Dumps(fields[i].1, floatRepr, layout)));
    "{" + DumpsMembers(if layout.sortKeys then SortByKey(members) else members, layout.keySep, layout.itemSep) + "}"
  }

  /** Joins already-rendered members as `"key"<keySep>value`. */
  function DumpsMembers(members: seq<(string, string)>, keySep: string, itemSep: string): string
  {
    Join(itemSep, seq(|members|, i requires 0 <= i < |members| => EncodeString(members[i].0) + keySep + members[i].1))
  }

  /** The rendered members of an object, before any ordering by key. */
  function Members(fields: seq<(string, Json)>, floatRepr: real -> string, layout: Layout): (m: seq<(string, string)>)
    ensures |m| == |fields|
    ensures forall i :: 0 <= i < |fields| ==> m[i] == (fields[i].0, Dumps(fields[i].1, floatRepr, layout))
  {
    seq(|fields|, i requires 0 <= i < |fields| => (fields[i].0, Dumps(fields[i].1, floatRepr, layout)))
  }

  lemma DumpsObject(fields: seq<(string, Json)>, floatRepr: real -> string, layout: Layout)
    ensures var m := Members(fields, floatRepr, layout);
      Dumps(JObj(fields), floatRepr, layout)
        == "{" + DumpsMembers(if layout.sortKeys then SortByKey(m) else m, layout.keySep, layout.itemSep) + "}"
  {
  }

  /** 2 to the power `e`. */
  function Pow2(e: int): (r: real)
    ensures r > 0.0
    decreases if e < 0 then -e else e
  {
    if e == 0 then 1.0
    else if e > 0 then 2.0 * Pow2(e - 1)
    else Pow2(e + 1) / 2.0
  }

  /** The finite IEEE 754 binary64 values, which are what a Python float
      holds: an integer significand below 2^53 in magnitude times a power of
      two from 2^-1074 to 2^971. */
  predicate IsDouble(x: real)
  {
    exists e: int | -1074 <= e <= 971 ::
      var m := x / Pow2(e);
      m.Floor as real == m && -0x20_0000_0000_0000 < m.Floor < 0x20_0000_0000_0000
  }

  lemma ZeroIsDouble()
    ensures IsDouble(0.0)
  {
    assert Pow2(0) == 1.0;
    var m := 0.0 / Pow2(0);
    assert m.Floor as real == m;
  }

  /** A value a Python program can hold: objects nested anywhere have
      distinct keys, as every dict does, and every float is a double. */
  predicate WellFormed(v: Json)
    decreases v
  {
    match v
    case JFloat(x) => IsDouble(x)
    case JArr(items) => forall i :: 0 <= i < |items| ==> WellFormed(items[i])
    case JObj(fields) => DistinctKeys(fields) && forall i :: 0 <= i < |fields| ==> WellFormed(fields[i].1)
    case _ => true
  }

  /** Every object nested anywhere has its keys in strictly increasing order,
      as `json.loads` returns a document written with `sort_keys=True`. */
  predicate KeysSorted(v: Json)
    decreases v
  {
    match v
    case JArr(items) => forall i :: 0 <= i < |items| ==> KeysSorted(items[i])
    case JObj(fields) => StrictlySortedByKey(fields) && forall i :: 0 <= i < |fields| ==> KeysSorted(fields[i].1)
    case _ => true
  }

  lemma PopPutSame(d: Dict, k: string, v: Json)
    ensures Pop(Put(d, k, v), k) == Pop(d, k)
  {
  }

  lemma PopPutOther(d: Dict, k: string, k': string, v: Json)
    requires k != k'
    ensures Pop(Put(d, k, v), k') == Put(Pop(d, k'), k, v)
  {
  }

  lemma PopPopSwap(d: Dict, a: string, b: string)
    ensures Pop(Pop(d, a), b) == Pop(Pop(d, b), a)
  {
  }

  lemma {:induction false} PopPopSame(d: Dict, a: string)
    ensures Pop(Pop(d, a), a) == Pop(d, a)
  {
    if d != [] { PopPopSame(d[1..], a); }
  }

  lemma MembersKeepKeys(fields: seq<(string, Json)>, floatRepr: real -> string, layout: Layout)
    requires DistinctKeys(fields)
    ensures DistinctKeys(Members(fields, floatRepr, layout))
  {
    var m := Members(fields, floatRepr, layout);
    forall i, j | 0 <= i < j < |m| ensures m[i].0 != m[j].0 {
      assert m[i].0 == fields[i].0 && m[j].0 == fields[j].0;
    }
  }

  lemma MembersSamePairs(f1: seq<(string, Json)>, f2: seq<(string, Json)>, floatRepr: real -> string, layout: Layout)
    requires forall p :: p in f1 ==> p in f2
    ensures forall p :: p in Members(f1, floatRepr, layout) ==> p in Members(f2, floatRepr, layout)
  {
    var m1, m2 := Members(f1, floatRepr, layout), Members(f2, floatRepr, layout);
    forall p | p in m1 ensures p in m2 {
      var i :| 0 <= i < |m1| && m1[i] == p;
      assert f1[i] in f2;
      var j :| 0 <= j < |f2| && f2[j] == f1[i];
      assert m2[j] == p;
    }
  }

  /** With `sort_keys`, an object's text depends only on its key/value pairs,
      not on the order in which the keys were inserted. */
  lemma DumpsSortedIgnoresOrder(f1: seq<(string, Json)>, f2: seq<(string, Json)>, floatRepr: real -> string, layout: Layout)
    requires layout.sortKeys
    requires DistinctKeys(f1) && DistinctKeys(f2)
    requires forall p :: p in f1 <==> p in f2
    ensures Dumps(JObj(f1), floatRepr, layout) == Dumps(JObj(f2), floatRepr, layout)
  {
    MembersKeepKeys(f1, floatRepr, layout);
    MembersKeepKeys(f2, floatRepr, layout);
    MembersSamePairs(f1, f2, floatRepr, layout);
    MembersSamePairs(f2, f1, floatRepr, layout);
    SortIgnoresOrder(Members(f1, floatRepr, layout), Members(f2, floatRepr, layout));
    DumpsObject(f1, floatRepr, layout);
    DumpsObject(f2, floatRepr, layout);
  }

  /** Joining single-line parts with a single-line separator gives one line. */
  lemma {:induction false} JoinSingleLine(sep: string, parts: seq<string>)
    requires SingleLine(sep)
    requires forall i :: 0 <= i < |parts| ==> SingleLine(parts[i])
    ensures SingleLine(Join(sep, parts))
  {
    if |parts| > 1 {
      JoinSingleLine(sep, parts[1..]);
    }
  }

  lemma SingleLineConcat(a: string, b: string)
    requires SingleLine(a) && SingleLine(b)
    ensures SingleLine(a + b)
  {
    forall i | 0 <= i < |a + b| ensures (a + b)[i] != '\n' {
      if i < |a| { assert (a + b)[i] == a[i]; } else { assert (a + b)[i] == b[i - |a|]; }
    }
  }

  /** Members whose rendered values are single lines join into one line. */
  lemma DumpsMembersSingleLine(m: seq<(string, string)>, keySep: string, itemSep: string)
    requires forall i :: 0 <= i < |m| ==> SingleLine(m[i].1)
    requires SingleLine(itemSep) && SingleLine(keySep)
    ensures SingleLine(DumpsMembers(m, keySep, itemSep))
  {
    var parts := seq(|m|, i requires 0 <= i < |m| => EncodeString(m[i].0) + keySep + m[i].1);
    forall i | 0 <= i < |m| ensures SingleLine(parts[i]) {
      EncodeStringFacts(m[i].0);
      SingleLineConcat(EncodeString(m[i].0), keySep);
      SingleLineConcat(EncodeString(m[i].0) + keySep, m[i].1);
    }
    JoinSingleLine(itemSep, parts);
  }

  lemma SortedMembersSingleLine(m: seq<(string, string)>)
    requires forall i :: 0 <= i < |m| ==> SingleLine(m[i].1)
    ensures forall i :: 0 <= i < |SortByKey(m)| ==> SingleLine(SortByKey(m)[i].1)
  {
    var ordered := SortByKey(m);
    SortByKeyFacts(m);
    forall i | 0 <= i < |ordered| ensures SingleLine(ordered[i].1) {
      assert ordered[i] in m;
    }
  }

  /** Rendered members that are single lines make a single-line object,
      sorted or not. */
  lemma MembersSingleLine(m: seq<(string, string)>, layout: Layout)
    requires forall i :: 0 <= i < |m| ==> SingleLine(m[i].1)
    requires SingleLine(layout.itemSep) && SingleLine(layout.keySep)
    ensures SingleLine("{" + DumpsMembers(if layout.sortKeys then SortByKey(m) else m, layout.keySep, layout.itemSep) + "}")
  {
    var ordered := if layout.sortKeys then SortByKey(m) else m;
    if layout.sortKeys {
      SortedMembersSingleLine(m);
    }
    DumpsMembersSingleLine(ordered, layout.keySep, layout.itemSep);
    var body := DumpsMembers(ordered, layout.keySep, layout.itemSep);
    SingleLineConcat("{", body);
    SingleLineConcat("{" + body, "}");
  }

  /** With a float rendering and separators free of line breaks, `json.dumps`
      writes one line: every control character in a string is escaped. */
  lemma {:induction false} DumpsSingleLine(v: Json, floatRepr: real -> string, layout: Layout)
    requires forall x :: SingleLine(floatRepr(x))
    requires SingleLine(layout.itemSep) && SingleLine(layout.keySep)
    ensures SingleLine(Dumps(v, floatRepr, layout))
    decreases v
  {
    match v
    case JArr(items) =>
      var parts := seq(|items|, i requires 0 <= i < |items| => Dumps(items[i], floatRepr, layout));
      forall i | 0 <= i < |items| ensures SingleLine(parts[i]) {
        DumpsSingleLine(items[i], floatRepr, layout);
      }
      JoinSingleLine(layout.itemSep, parts);
    case JObj(fields) =>
      var m := Members(fields, floatRepr, layout);
      forall i | 0 <= i < |fields| ensures SingleLine(m[i].1) {
        DumpsSingleLine(fields[i].1, floatRepr, layout);
      }
      MembersSingleLine(m, layout);
      DumpsObject(fields, floatRepr, layout);
    case JStr(s) =>
      EncodeStringFacts(s);
    case _ =>
  }
}
