/** Python's ordering of `str` values (lexicographic by code point) and the
    `sorted` of key/value pairs that `json.dumps(sort_keys=True)` applies to a
    dict's items and that `verify_all` applies to a directory listing. */
module Sorting {

  /** `a < b` on Python strings: the first differing code point decides, and a
      proper prefix is smaller. */
  predicate StrLt(a: string, b: string)
    decreases |a|
  {
    if |a| == 0 then |b| > 0
    else if |b| == 0 then false
    else if a[0] != b[0] then a[0] < b[0]
    else StrLt(a[1..], b[1..])
  }

  lemma {:induction false} StrLtIrreflexive(a: string)
    ensures !StrLt(a, a)
    decreases |a|
  {
    if |a| > 0 { StrLtIrreflexive(a[1..]); }
  }

  lemma {:induction false} StrLtAsymmetric(a: string, b: string)
    ensures !(StrLt(a, b) && StrLt(b, a))
    decreases |a|
  {
    if |a| > 0 && |b| > 0 && a[0] == b[0] { StrLtAsymmetric(a[1..], b[1..]); }
  }

  lemma {:induction false} StrLtTransitive(a: string, b: string, c: string)
    ensures StrLt(a, b) && StrLt(b, c) ==> StrLt(a, c)
    decreases |a|
  {
    if |a| > 0 && |b| > 0 && |c| > 0 && a[0] == b[0] && b[0] == c[0] {
      StrLtTransitive(a[1..], b[1..], c[1..]);
    }
  }

  /** Any two distinct strings are ordered one way or the other. */
  lemma {:induction false} StrLtTotal(a: string, b: string)
    ensures a == b || StrLt(a, b) || StrLt(b, a)
    decreases |a|
  {
    if |a| > 0 && |b| > 0 && a[0] == b[0] {
      assert a == [a[0]] + a[1..] && b == [b[0]] + b[1..];
      StrLtTotal(a[1..], b[1..]);
    }
  }

  /** `a < b <= c` gives `a < c`. */
  lemma LtLeTrans(a: string, b: string, c: string)
    ensures StrLt(a, b) && !StrLt(c, b) ==> StrLt(a, c)
  {
    StrLtTotal(b, c);
    StrLtTransitive(a, b, c);
  }

  /** The keys of a sequence of pairs never decrease. */
  predicate SortedByKey<V>(s: seq<(string, V)>)
  {
    forall i, j :: 0 <= i < j < |s| ==> !StrLt(s[j].0, s[i].0)
  }

  /** The keys of a sequence of pairs strictly increase. */
  predicate StrictlySortedByKey<V>(s: seq<(string, V)>)
  {
    forall i, j :: 0 <= i < j < |s| ==> StrLt(s[i].0, s[j].0)
  }

  /** No key occurs twice, as in a Python dict or a directory listing. */
  predicate DistinctKeys<V>(s: seq<(string, V)>)
  {
    forall i, j :: 0 <= i < j < |s| ==> s[i].0 != s[j].0
  }

  /** Inserts `x` before the first element whose key is larger. */
  function Insert<V>(x: (string, V), s: seq<(string, V)>): (r: seq<(string, V)>)
    ensures |r| == |s| + 1
  {
    if s == [] then [x]
    else if StrLt(x.0, s[0].0) then [x] + s
    else [s[0]] + Insert(x, s[1..])
  }

  /** Inserting adds exactly `x`. */
  lemma {:induction false} InsertMembers<V(!new)>(x: (string, V), s: seq<(string, V)>)
    ensures forall y :: y in Insert(x, s) <==> y == x || y in s
  {
    if s != [] && !StrLt(x.0, s[0].0) {
      InsertMembers(x, s[1..]);
      assert s == [s[0]] + s[1..];
    }
  }

  /** Inserting into a sorted sequence keeps it sorted. */
  lemma {:induction false} InsertSorted<V(!new)>(x: (string, V), s: seq<(string, V)>)
    requires SortedByKey(s)
    ensures SortedByKey(Insert(x, s))
  {
    if s == [] {
    } else if StrLt(x.0, s[0].0) {
      forall j | 0 <= j < |s| ensures !StrLt(s[j].0, x.0) {
        LtLeTrans(x.0, s[0].0, s[j].0);
        StrLtAsymmetric(x.0, s[j].0);
      }
    } else {
      var t := Insert(x, s[1..]);
      InsertSorted(x, s[1..]);
      InsertMembers(x, s[1..]);
      assert Insert(x, s) == [s[0]] + t;
      forall j | 0 <= j < |t| ensures !StrLt(t[j].0, s[0].0) {
        assert t[j] in t;
        if t[j] != x {
          var k :| 0 <= k < |s[1..]| && s[1..][k] == t[j];
          assert s[k + 1] == t[j];
        }
      }
    }
  }

  /** Inserting a pair whose key is new keeps keys distinct. */
  lemma {:induction false} InsertDistinct<V(!new)>(x: (string, V), s: seq<(string, V)>)
    requires DistinctKeys(s) && forall y :: y in s ==> y.0 != x.0
    ensures DistinctKeys(Insert(x, s))
  {
    if s == [] {
    } else if StrLt(x.0, s[0].0) {
      forall j | 0 <= j < |s| ensures s[j].0 != x.0 {
        assert s[j] in s;
      }
    } else {
      var t := Insert(x, s[1..]);
      assert s == [s[0]] + s[1..];
      InsertDistinct(x, s[1..]);
      InsertMembers(x, s[1..]);
      assert Insert(x, s) == [s[0]] + t;
      forall j | 0 <= j < |t| ensures t[j].0 != s[0].0 {
        assert t[j] in t;
        if t[j] != x {
          var k :| 0 <= k < |s[1..]| && s[1..][k] == t[j];
          assert s[k + 1] == t[j];
        } else {
          assert s[0] in s;
        }
      }
    }
  }

  /** Python's `sorted` over key/value pairs: an insertion sort by key. */
  function SortByKey<V>(s: seq<(string, V)>): (r: seq<(string, V)>)
    ensures |r| == |s|
  {
    if s == [] then [] else Insert(s[0], SortByKey(s[1..]))
  }

  /** Sorting yields a sorted sequence holding exactly the pairs it was
      given, and distinct keys stay distinct. */
  lemma {:induction false} SortByKeyFacts<V(!new)>(s: seq<(string, V)>)
    ensures SortedByKey(SortByKey(s))
    ensures forall y :: y in SortByKey(s) <==> y in s
    ensures DistinctKeys(s) ==> DistinctKeys(SortByKey(s))
  {
    if s != [] {
      assert s == [s[0]] + s[1..];
      var t := SortByKey(s[1..]);
      SortByKeyFacts(s[1..]);
      InsertSorted(s[0], t);
      InsertMembers(s[0], t);
      forall y | y in t ensures y in s[1..] && (DistinctKeys(s) ==> y.0 != s[0].0) {
        assert y in s[1..];
        var k :| 0 <= k < |s[1..]| && s[1..][k] == y;
        assert s[k + 1] == y;
      }
      if DistinctKeys(s) {
        InsertDistinct(s[0], t);
      }
    }
  }

  lemma SortedDistinctIsStrict<V>(s: seq<(string, V)>)
    requires SortedByKey(s) && DistinctKeys(s)
    ensures StrictlySortedByKey(s)
  {
    forall i, j | 0 <= i < j < |s| ensures StrLt(s[i].0, s[j].0) {
      StrLtTotal(s[i].0, s[j].0);
    }
  }

  /** The first pair of a strictly sorted sequence has the least key. */
  lemma HeadIsLeast<V>(a: seq<(string, V)>, x: (string, V))
    requires StrictlySortedByKey(a) && x in a
    ensures x == a[0] || StrLt(a[0].0, x.0)
  {
    var i :| 0 <= i < |a| && a[i] == x;
  }

  /** Two strictly sorted sequences holding the same pairs are equal. */
  lemma {:induction false} StrictlySortedUnique<V>(a: seq<(string, V)>, b: seq<(string, V)>)
    requires StrictlySortedByKey(a) && StrictlySortedByKey(b)
    requires forall x :: x in a <==> x in b
    ensures a == b
    decreases |a|
  {
    if |a| > 0 { assert a[0] in b; }
    if |b| > 0 { assert b[0] in a; }
    if a != [] {
      HeadIsLeast(b, a[0]);
      HeadIsLeast(a, b[0]);
      StrLtAsymmetric(a[0].0, b[0].0);
      assert a[0] == b[0];
      forall x ensures x in a[1..] <==> x in b[1..] {
        StrLtIrreflexive(x.0);
        if x in a[1..] {
          var i :| 0 <= i < |a[1..]| && a[1..][i] == x;
          assert StrLt(a[0].0, a[i + 1].0);
          assert x in b && b == [b[0]] + b[1..];
        }
        if x in b[1..] {
          var i :| 0 <= i < |b[1..]| && b[1..][i] == x;
          assert StrLt(b[0].0, b[i + 1].0);
          assert x in a && a == [a[0]] + a[1..];
        }
      }
      StrictlySortedUnique(a[1..], b[1..]);
      assert a == [a[0]] + a[1..] && b == [b[0]] + b[1..];
    }
  }

  /** Sorting pairs with distinct keys does not depend on their original
      order: inputs holding the same pairs sort to the same sequence. */
  lemma SortIgnoresOrder<V(!new)>(a: seq<(string, V)>, b: seq<(string, V)>)
    requires DistinctKeys(a) && DistinctKeys(b)
    requires forall x :: x in a <==> x in b
    ensures SortByKey(a) == SortByKey(b)
  {
    var sa, sb := SortByKey(a), SortByKey(b);
    SortByKeyFacts(a);
    SortByKeyFacts(b);
    SortedDistinctIsStrict(sa);
    SortedDistinctIsStrict(sb);
    StrictlySortedUnique(sa, sb);
  }
}
