/** The library calls the ledger makes but whose internals are not modelled:
    SHA-256 (FIPS 180-4), Ed25519 key derivation, signing and verification
    (RFC 8032, section 5.1), base64 (RFC 4648, section 4), `json.loads`,
    `float()` of a number, and Python's `repr` of floats and containers. They
    are fields of one value so that every operation states which of them it
    uses; `CryptoLawful` and `JsonLawful` list what the ledger assumes of
    them. */
module Primitives {
  import opened Base
  import opened Text
  import opened Json

  datatype Lib = Lib(
    sha256: seq<byte> -> seq<byte>,
    publicKeyOf: seq<byte> -> seq<byte>,                  // seed -> verify key
    sign: (seq<byte>, seq<byte>) -> seq<byte>,            // (seed, message) -> detached signature
    verify: (seq<byte>, seq<byte>, seq<byte>) -> bool,    // (verify key, message, signature)
    b64encode: seq<byte> -> string,
    b64decode: string -> Option<seq<byte>>,               // None: binascii.Error
    toFloat: real -> real,                                // float(x): the nearest double
    floatRepr: real -> string,
    containerRepr: Json -> string,                        // str() of a list or dict
    loads: string -> Option<Json>)                        // None: JSONDecodeError

  /** What the ledger relies on from the digest, the signature scheme and
      base64: their lengths, that a signature verifies under the public key
      of the seed that made it, and that decoding inverts encoding. */
  ghost predicate CryptoLawful(lib: Lib)
  {
    && (forall m :: |lib.sha256(m)| == 32)
    && (forall sk :: |sk| == 32 ==> |lib.publicKeyOf(sk)| == 32)
    && (forall sk, m :: |lib.sign(sk, m)| == 64)
    && (forall sk, m :: lib.verify(lib.publicKeyOf(sk), m, lib.sign(sk, m)))
    && (forall b :: lib.b64decode(lib.b64encode(b)) == Some(b))
    && (forall b :: b != [] ==> lib.b64encode(b) != "")
  }

  /** What the ledger relies on from `float()`, float `repr` and
      `json.loads`: `float()` yields a double, a float's text is one line, and
      `json.loads` gives back any value Python can hold from the text
      `json.dumps` wrote for it, in either layout the ledger uses. */
  ghost predicate JsonLawful(lib: Lib)
  {
    && (forall x :: IsDouble(lib.toFloat(x)))
    && (forall x :: SingleLine(lib.floatRepr(x)))
    && (forall v {:trigger Dumps(v, lib.floatRepr, DEFAULT)} :: WellFormed(v) ==> lib.loads(Dumps(v, lib.floatRepr, DEFAULT)) == Some(v))
    && (forall v {:trigger Dumps(v, lib.floatRepr, DEFAULT)} :: WellFormed(v) ==> lib.loads(Dumps(v, lib.floatRepr, DEFAULT) + "\n") == Some(v))
    && (forall v {:trigger Dumps(v, lib.floatRepr, CANONICAL)} :: WellFormed(v) && KeysSorted(v) ==> lib.loads(Dumps(v, lib.floatRepr, CANONICAL)) == Some(v))
  }

  ghost predicate Lawful(lib: Lib)
  {
    CryptoLawful(lib) && JsonLawful(lib)
  }

  /** A stand-in for base64 used only to show `CryptoLawful` consistent:
      a marker followed by one character per byte. */
  function MarkedText(b: seq<byte>): (r: string)
    ensures |r| == |b| + 1 && r[0] == '='
    ensures forall i :: 0 <= i < |b| ==> r[i + 1] as int == b[i] as int
  {
    "=" + seq(|b|, i requires 0 <= i < |b| => b[i] as char)
  }

  /** The inverse of `MarkedText`. */
  function UnmarkText(s: string): Option<seq<byte>>
  {
    if |s| >= 1 && s[0] == '=' then Some(seq(|s| - 1, i requires 0 <= i < |s| - 1 => (s[i + 1] as int % 256) as byte))
    else None
  }

  /** A library whose primitives meet `CryptoLawful`, so the assumption is
      consistent: constant digests and signatures, a verifier that accepts
      everything, and `MarkedText` in place of base64. */
  lemma CryptoLawfulConsistent()
    ensures exists lib :: CryptoLawful(lib)
  {
    var lib := Lib(
      m => seq(32, _ => 0 as byte),
      sk => seq(32, _ => 0 as byte),
      (sk, m) => seq(64, _ => 0 as byte),
      (pk, m, sig) => true,
      MarkedText, UnmarkText,
      x => x, x => "", v => "", s => None);
    forall b: seq<byte> ensures lib.b64decode(lib.b64encode(b)) == Some(b) {
      var t := UnmarkText(MarkedText(b));
      assert t.Some? && |t.value| == |b|;
      assert forall i :: 0 <= i < |b| ==> t.value[i] == b[i];
      assert t.value == b;
      assert lib.b64encode(b) == MarkedText(b) && lib.b64decode(MarkedText(b)) == t;
    }
    assert CryptoLawful(lib);
  }

  /** Python's `str(v)` of a parsed JSON value, as an f-string renders it. */
  function PyStr(lib: Lib, v: Json): (r: string)
    ensures v.JStr? ==> r == v.s
  {
    match v
    case JNull => "None"
    case JBool(b) => if b then "True" else "False"
    case JInt(i) => IntToDecimal(i)
    case JFloat(x) => lib.floatRepr(x)
    case JStr(s) => s
    case _ => lib.containerRepr(v)
  }
}
