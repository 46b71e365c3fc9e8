/** `engine/signing.py`: the Ed25519 signer that holds the ledger's private
    key, signs entry hashes and exposes the matching public key. */
module Signing {
  import opened Base
  import opened Text
  import opened Primitives

  const LEDGER_PRIVATE_KEY: string := "LEDGER_PRIVATE_KEY"

  /** Length of an Ed25519 seed, the private key as PyNaCl stores it. */
  const SEED_BYTES: nat := 32

  /** Where the key text comes from: an explicit argument, even an empty one,
      wins; only a missing argument falls back to the environment. */
  function KeySource(privateKeyHex: Option<string>, environ: map<string, string>): (r: Option<string>)
    ensures privateKeyHex.Some? ==> r == privateKeyHex
    ensures privateKeyHex.None? ==> (r.Some? <==> LEDGER_PRIVATE_KEY in environ)
  {
    if privateKeyHex.Some? then privateKeyHex
    else if LEDGER_PRIVATE_KEY in environ then Some(environ[LEDGER_PRIVATE_KEY])
    else None
  }

  /** The seed `Signer.__init__` ends up holding, or the ValueError it raises:
      no key text (or empty key text), or text that is not the hex of a
      32-byte seed. */
  function LoadSigningKey(privateKeyHex: Option<string>, environ: map<string, string>): (r: Result<seq<byte>>)
    ensures r.Ok? ==> |r.value| == SEED_BYTES
    ensures var src := KeySource(privateKeyHex, environ);
      (r == Err(KeyNotProvided)) <==> (src.None? || src.value == "")
    ensures var src := KeySource(privateKeyHex, environ);
      r.Ok? <==> (src.Some? && HexDecode(src.value).Some? && |HexDecode(src.value).value| == SEED_BYTES)
    ensures r.Ok? ==> HexDecode(KeySource(privateKeyHex, environ).value) == Some(r.value)
    ensures r.Err? ==> r.error == KeyNotProvided || r.error == InvalidKeyFormat
  {
    var src := KeySource(privateKeyHex, environ);
    if src.None? || src.value == "" then Err(KeyNotProvided)
    else
      match HexDecode(src.value)
      case Some(seed) => if |seed| == SEED_BYTES then Ok(seed) else Err(InvalidKeyFormat)
      case None => Err(InvalidKeyFormat)
  }

  /** With no argument and no usable environment variable, construction fails. */
  lemma NoKeyFails(environ: map<string, string>)
    requires LEDGER_PRIVATE_KEY !in environ || environ[LEDGER_PRIVATE_KEY] == ""
    ensures LoadSigningKey(None, environ) == Err(KeyNotProvided)
  {
  }

  /** An explicit key makes the environment irrelevant. */
  lemma ExplicitKeyWins(privateKeyHex: string, env1: map<string, string>, env2: map<string, string>)
    ensures LoadSigningKey(Some(privateKeyHex), env1) == LoadSigningKey(Some(privateKeyHex), env2)
  {
  }

  /** What `sign_entry` computes from a seed: fails on an empty hash;
      otherwise the base64 of the detached signature over the UTF-8 bytes of
      the hex text. */
  function SignHash(lib: Lib, seed: seq<byte>, entryHash: string): (r: Result<string>)
    ensures r.Err? <==> entryHash == ""
    ensures r.Err? ==> r.error == EmptyEntryHash
  {
    if entryHash == "" then Err(EmptyEntryHash)
    else Ok(lib.b64encode(lib.sign(seed, Utf8(entryHash))))
  }

  /** What `get_public_key` computes from a seed: lowercase hex text that
      decodes to the verify key derived from the seed. */
  function VerifyKeyHex(lib: Lib, seed: seq<byte>): (r: string)
    ensures IsLowerHex(r)
    ensures HexDecode(r) == Some(lib.publicKeyOf(seed))
  {
    HexRoundTrip(lib.publicKeyOf(seed));
    HexEncode(lib.publicKeyOf(seed))
  }

  /** Holds one Ed25519 seed for its lifetime; it is set once, at construction. */
  class Signer {
    const lib: Lib
    const signingKey: seq<byte>

    ghost predicate Valid()
    {
      |signingKey| == SEED_BYTES
    }

    constructor FromSeed(lib: Lib, seed: seq<byte>)
      requires |seed| == SEED_BYTES
      ensures Valid() && this.lib == lib && signingKey == seed
    {
      this.lib := lib;
      this.signingKey := seed;
    }

    /** `Signer(private_key_hex)`: either a signer holding the decoded seed or
        the ValueError, with no half-built signer left behind. */
    static method Create(lib: Lib, privateKeyHex: Option<string>, environ: map<string, string>) returns (r: Result<Signer>)
      ensures r.Err? <==> LoadSigningKey(privateKeyHex, environ).Err?
      ensures r.Err? ==> r.error == LoadSigningKey(privateKeyHex, environ).error
      ensures r.Ok? ==> fresh(r.value) && r.value.Valid() && r.value.lib == lib
      ensures r.Ok? ==> r.value.signingKey == LoadSigningKey(privateKeyHex, environ).value
    {
      var key := LoadSigningKey(privateKeyHex, environ);
      if key.Ok? {
        var s := new Signer.FromSeed(lib, key.value);
        r := Ok(s);
      } else {
        r := Err(key.error);
      }
    }

    /** `sign_entry` with the held seed. */
    function SignEntry(entryHash: string): (r: Result<string>)
      ensures r == SignHash(lib, signingKey, entryHash)
      ensures r.Err? <==> entryHash == ""
    {
      SignHash(lib, signingKey, entryHash)
    }

    /** `get_public_key` of the held seed. */
    function PublicKey(): (r: string)
      ensures r == VerifyKeyHex(lib, signingKey)
      ensures HexDecode(r) == Some(lib.publicKeyOf(signingKey))
    {
      VerifyKeyHex(lib, signingKey)
    }
  }

  /** What `sign_entry` returns decodes to a detached signature that verifies
      over the UTF-8 bytes of the hash text under the key `get_public_key`
      returns for the same seed. */
  lemma SignatureVerifies(lib: Lib, seed: seq<byte>, entryHash: string)
    requires CryptoLawful(lib) && |seed| == SEED_BYTES
    requires entryHash != ""
    ensures var pk := HexDecode(VerifyKeyHex(lib, seed));
      && pk.Some? && |pk.value| == SEED_BYTES
      && lib.b64decode(SignHash(lib, seed, entryHash).value).Some?
      && lib.verify(pk.value, Utf8(entryHash), lib.b64decode(SignHash(lib, seed, entryHash).value).value)
  {
    var sig := lib.sign(seed, Utf8(entryHash));
    assert lib.b64decode(lib.b64encode(sig)) == Some(sig);
    assert lib.verify(lib.publicKeyOf(seed), Utf8(entryHash), sig);
  }

  /** A signer's signature verifies under the signer's own public key. */
  lemma SignerSignatureVerifies(s: Signer, entryHash: string)
    requires CryptoLawful(s.lib) && s.Valid()
    requires entryHash != ""
    ensures s.SignEntry(entryHash).Ok?
    ensures var pk := HexDecode(s.PublicKey()).value;
      var sig := s.lib.b64decode(s.SignEntry(entryHash).value);
      sig.Some? && s.lib.verify(pk, Utf8(entryHash), sig.value)
  {
    SignatureVerifies(s.lib, s.signingKey, entryHash);
  }

  /** The message signed for a hash rendered in hex is its hex text, one ASCII
      byte per digit, twice as long as the raw digest. */
  lemma SignedMessageIsHexText(digest: seq<byte>)
    ensures var m := Utf8(HexEncode(digest));
      |m| == 2 * |digest| && forall i :: 0 <= i < |m| ==> m[i] == HexEncode(digest)[i] as int as byte
  {
    var h := HexEncode(digest);
    assert IsAscii(h) by {
      forall i | 0 <= i < |h| ensures h[i] as int < 0x80 { assert IsLowerHexDigit(h[i]); }
    }
  }

  /** `generate_keypair`, given the random seed it draws: the hex of the seed
      and the hex of its verify key. */
  function GenerateKeypair(lib: Lib, seed: seq<byte>): (r: (string, string))
    requires |seed| == SEED_BYTES
    ensures HexDecode(r.0) == Some(seed)
    ensures HexDecode(r.1) == Some(lib.publicKeyOf(seed))
    ensures r.1 == VerifyKeyHex(lib, seed)
  {
    HexRoundTrip(seed);
    (HexEncode(seed), VerifyKeyHex(lib, seed))
  }

  /** A generated private key loads into a signer holding the same seed, so
      that signer's public key is the generated public key. */
  lemma GeneratedKeypairLoads(lib: Lib, seed: seq<byte>, environ: map<string, string>)
    requires |seed| == SEED_BYTES
    ensures LoadSigningKey(Some(GenerateKeypair(lib, seed).0), environ) == Ok(seed)
  {
    var priv := GenerateKeypair(lib, seed).0;
    assert |priv| == 64;
  }
}
