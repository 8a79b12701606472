/**
 Private keys at rest: the encrypted envelope, its migration from retired
 secrets, and the `signing_keys` table.

 AES-256-GCM and the SHA-256 key derivation are parameters with stated laws.
*/
module SigningKeys {
  import opened Wrappers
  import opened Bytes
  import opened Unicode
  import Hex
  import JsonText

  /** Text that survives its UTF-8 encoding, as every PEM file does. */
  type Pem = t: Text | IsWellFormed(t)
  type Secret = Text
  type User = nat

  datatype Sealed = Sealed(ciphertext: seq<Byte>, tag: seq<Byte>)

  /** `derive` is SHA-256 of the secret; `open` answers `None` wherever the decipher throws. */
  datatype Cipher = Cipher(
    derive: Secret -> seq<Byte>,
    seal: (seq<Byte>, seq<Byte>, seq<Byte>) -> Sealed,
    open: (seq<Byte>, seq<Byte>, Sealed) -> Option<seq<Byte>>)

  datatype Config = Config(active: Secret, previous: seq<Secret>) {
    ghost function Secrets(): set<Secret> { {active} + set s | s in previous }
  }

  const COLON: Unit := 58

  // ---- the envelope ------------------------------------------------------

  function Envelope(iv: seq<Byte>, tag: seq<Byte>, ciphertext: seq<Byte>): Text
  {
    Hex.FromBytes(iv) + [COLON] + Hex.FromBytes(tag) + [COLON] + Hex.FromBytes(ciphertext)
  }

  /** `text.split(':')` */
  function Split(t: Text): (parts: seq<Text>)
    ensures parts != []
  {
    if t == [] then [[]]
    else if t[0] == COLON then [[]] + Split(t[1..])
    else
      var parts := Split(t[1..]);
      [[t[0]] + parts[0]] + parts[1..]
  }

  lemma {:induction false} SplitAtColon(a: Text, b: Text)
    requires COLON !in a
    ensures Split(a + [COLON] + b) == [a] + Split(b)
  {
    if a == [] {
      assert [] + [COLON] + b == [COLON] + b && ([COLON] + b)[1..] == b;
    } else {
      SplitAtColon(a[1..], b);
      assert (a + [COLON] + b)[1..] == a[1..] + [COLON] + b;
      assert ([a[1..]] + Split(b))[1..] == Split(b);
      assert [a[0]] + a[1..] == a;
    }
  }

  lemma {:induction false} SplitWithoutColon(a: Text)
    requires COLON !in a
    ensures Split(a) == [a]
  {
    if a != [] {
      SplitWithoutColon(a[1..]);
      assert [a[0]] + a[1..] == a;
    }
  }

  lemma HexHasNoColon(bytes: seq<Byte>)
    ensures COLON !in Hex.FromBytes(bytes)
  {
  }

  /** The envelope falls back into exactly its three parts. */
  lemma EnvelopeParts(iv: seq<Byte>, tag: seq<Byte>, ciphertext: seq<Byte>)
    ensures var parts := Split(Envelope(iv, tag, ciphertext));
            && |parts| == 3
            && Hex.ToBytes(parts[0]) == iv && Hex.ToBytes(parts[1]) == tag && Hex.ToBytes(parts[2]) == ciphertext
  {
    hide Hex.FromBytes, Hex.ToBytes, Split;
    var a, b, c := Hex.FromBytes(iv), Hex.FromBytes(tag), Hex.FromBytes(ciphertext);
    HexHasNoColon(iv);
    HexHasNoColon(tag);
    HexHasNoColon(ciphertext);
    assert Envelope(iv, tag, ciphertext) == a + [COLON] + (b + [COLON] + c);
    SplitAtColon(a, b + [COLON] + c);
    SplitAtColon(b, c);
    SplitWithoutColon(c);
    Hex.BytesRoundTrip(iv);
    Hex.BytesRoundTrip(tag);
    Hex.BytesRoundTrip(ciphertext);
  }

  /** Each byte is two lower-case digits, the high one first. */
  lemma {:induction false} HexIsExact(bytes: seq<Byte>, i: nat)
    requires i < |bytes|
    ensures var t := Hex.FromBytes(bytes);
            |t| == 2 * |bytes| && t[2 * i] == JsonText.HexDigit(bytes[i] / 16) && t[2 * i + 1] == JsonText.HexDigit(bytes[i] % 16)
    decreases |bytes|
  {
    HexLength(bytes);
    HexLength(bytes[1..]);
    var rest := Hex.FromBytes(bytes[1..]);
    assert Hex.FromBytes(bytes)[2..] == rest;
    JsonText.DigitIsExact(bytes[i] / 16);
    JsonText.DigitIsExact(bytes[i] % 16);
    if i != 0 {
      HexIsExact(bytes[1..], i - 1);
      assert Hex.FromBytes(bytes)[2 * i] == rest[2 * (i - 1)] && Hex.FromBytes(bytes)[2 * i + 1] == rest[2 * (i - 1) + 1];
    }
  }

  lemma {:induction false} HexLength(bytes: seq<Byte>)
    ensures |Hex.FromBytes(bytes)| == 2 * |bytes|
  {
    if bytes != [] {
      HexLength(bytes[1..]);
    }
  }

  /** Where the parts stand: initialisation vector, tag and ciphertext in hexadecimal, with the two colons between them. */
  lemma EnvelopeIsExact(iv: seq<Byte>, tag: seq<Byte>, ciphertext: seq<Byte>)
    ensures var e, m, n := Envelope(iv, tag, ciphertext), 2 * |iv|, 2 * |iv| + 2 * |tag| + 1;
            && |e| == n + 1 + 2 * |ciphertext|
            && e[..m] == Hex.FromBytes(iv) && e[m + 1..n] == Hex.FromBytes(tag) && e[n + 1..] == Hex.FromBytes(ciphertext)
            && e[m] == 58 && e[n] == 58
  {
    hide Hex.FromBytes;
    HexLength(iv);
    HexLength(tag);
    HexLength(ciphertext);
  }

  // ---- encryption --------------------------------------------------------

  /** `encryptPrivateKey` under a given secret; the random IV is an argument. */
  function Encrypt(c: Cipher, secret: Secret, iv: seq<Byte>, pem: Text): Text
  {
    var sealed := c.seal(c.derive(secret), iv, Utf8(pem));
    Envelope(iv, sealed.tag, sealed.ciphertext)
  }

  /** `decryptWithSecret`; fewer than three parts make `Buffer.from(undefined)` throw. */
  function Decrypt(c: Cipher, secret: Secret, encrypted: Text): Option<Text>
  {
    var parts := Split(encrypted);
    if |parts| < 3 then None else
    match c.open(c.derive(secret), Hex.ToBytes(parts[0]), Sealed(Hex.ToBytes(parts[2]), Hex.ToBytes(parts[1])))
    case None => None
    case Some(plain) => Some(FromUtf8(plain))
  }

  /** The envelope holds the vector it was given and what the cipher sealed under the derived key with that vector. */
  lemma EncryptIsExact(c: Cipher, secret: Secret, iv: seq<Byte>, pem: Text)
    ensures var sealed := c.seal(c.derive(secret), iv, Utf8(pem));
            Encrypt(c, secret, iv, pem) == Envelope(iv, sealed.tag, sealed.ciphertext)
    ensures var parts := Split(Encrypt(c, secret, iv, pem));
            |parts| == 3 && Hex.ToBytes(parts[0]) == iv &&
            Sealed(Hex.ToBytes(parts[2]), Hex.ToBytes(parts[1])) == c.seal(c.derive(secret), iv, Utf8(pem))
  {
    hide Split, Envelope, Utf8;
    var sealed := c.seal(c.derive(secret), iv, Utf8(pem));
    EnvelopeParts(iv, sealed.tag, sealed.ciphertext);
  }

  /** Text with fewer than two colons does not decrypt; from a third one on the rest is ignored. */
  lemma DecryptIsExact(c: Cipher, secret: Secret, a: Text, b: Text, d: Text, rest: Text)
    requires 58 !in a && 58 !in b && 58 !in d
    ensures Decrypt(c, secret, a) == None && Decrypt(c, secret, a + [58] + b) == None
    ensures Decrypt(c, secret, a + [58] + (b + [58] + d)) ==
              match c.open(c.derive(secret), Hex.ToBytes(a), Sealed(Hex.ToBytes(d), Hex.ToBytes(b)))
              case None => None
              case Some(plain) => Some(FromUtf8(plain))
    ensures Decrypt(c, secret, a + [58] + (b + [58] + (d + [58] + rest))) == Decrypt(c, secret, a + [58] + (b + [58] + d))
  {
    hide Split, Hex.ToBytes, FromUtf8;
    SplitWithoutColon(a);
    SplitWithoutColon(b);
    SplitWithoutColon(d);
    SplitAtColon(a, b);
    SplitAtColon(b, d);
    SplitAtColon(a, b + [58] + d);
    SplitAtColon(d, rest);
    SplitAtColon(b, d + [58] + rest);
    SplitAtColon(a, b + [58] + (d + [58] + rest));
  }

  datatype Migration = Migration(pem: Text, needsReencryption: bool)

  /** The first previous secret, other than the active one, that opens the envelope. */
  function TryPrevious(c: Cipher, config: Config, encrypted: Text, i: nat): Option<Migration>
    requires i <= |config.previous|
    decreases |config.previous| - i
  {
    if i == |config.previous| then None
    else if config.previous[i] != config.active && Decrypt(c, config.previous[i], encrypted).Some?
    then Some(Migration(Decrypt(c, config.previous[i], encrypted).value, true))
    else TryPrevious(c, config, encrypted, i + 1)
  }

  function DecryptWithMigration(c: Cipher, config: Config, encrypted: Text): Option<Migration>
  {
    match Decrypt(c, config.active, encrypted)
    case Some(pem) => Some(Migration(pem, false))
    case None => TryPrevious(c, config, encrypted, 0)
  }

  predicate Opens(c: Cipher, secret: Secret, encrypted: Text) { Decrypt(c, secret, encrypted).Some? }

  /** Entry `i` is the first previous secret to open the envelope. */
  predicate OpensFirst(c: Cipher, config: Config, encrypted: Text, i: nat)
    requires i < |config.previous|
  {
    Opens(c, config.previous[i], encrypted) && forall j :: 0 <= j < i ==> !Opens(c, config.previous[j], encrypted)
  }

  lemma {:induction false} TryPreviousIsExact(c: Cipher, config: Config, encrypted: Text, i: nat)
    requires i <= |config.previous| && !Opens(c, config.active, encrypted)
    requires forall j :: 0 <= j < i ==> !Opens(c, config.previous[j], encrypted)
    ensures var r := TryPrevious(c, config, encrypted, i);
            && (r.None? ==> forall j :: 0 <= j < |config.previous| ==> !Opens(c, config.previous[j], encrypted))
            && (r.Some? ==> exists k :: 0 <= k < |config.previous| && OpensFirst(c, config, encrypted, k)
                                     && r.value == Migration(Decrypt(c, config.previous[k], encrypted).value, true))
    decreases |config.previous| - i
  {
    hide Decrypt;
    if i < |config.previous| {
      if Opens(c, config.previous[i], encrypted) {
        assert OpensFirst(c, config, encrypted, i);
      } else {
        TryPreviousIsExact(c, config, encrypted, i + 1);
      }
    }
  }

  /** The active secret has the first say, then the previous ones in their order; without any that opens there is no answer. */
  lemma MigrationTakesTheFirst(c: Cipher, config: Config, encrypted: Text)
    ensures var r := DecryptWithMigration(c, config, encrypted);
            && (Opens(c, config.active, encrypted) ==> r == Some(Migration(Decrypt(c, config.active, encrypted).value, false)))
            && (r.None? <==> !Opens(c, config.active, encrypted) && forall i :: 0 <= i < |config.previous| ==> !Opens(c, config.previous[i], encrypted))
            && (r.Some? && !Opens(c, config.active, encrypted) ==>
                  exists i :: 0 <= i < |config.previous| && OpensFirst(c, config, encrypted, i)
                           && r.value == Migration(Decrypt(c, config.previous[i], encrypted).value, true))
  {
    hide Decrypt, TryPrevious;
    if !Opens(c, config.active, encrypted) {
      TryPreviousIsExact(c, config, encrypted, 0);
    }
  }

  /** The loop of `decryptPrivateKeyWithMigration`; `None` is the rethrown first error. */
  method TrySecrets(c: Cipher, config: Config, encrypted: Text) returns (r: Option<Migration>)
    ensures r == DecryptWithMigration(c, config, encrypted)
  {
    var primary := Decrypt(c, config.active, encrypted);
    if primary.Some? {
      return Some(Migration(primary.value, false));
    }
    for i := 0 to |config.previous|
      invariant TryPrevious(c, config, encrypted, 0) == TryPrevious(c, config, encrypted, i)
    {
      var previousSecret := config.previous[i];
      if previousSecret == config.active {
        continue;
      }
      var candidate := Decrypt(c, previousSecret, encrypted);
      if candidate.Some? {
        return Some(Migration(candidate.value, true));
      }
    }
    r := None;
  }

  // ---- what the cipher is trusted for --------------------------------------

  /** Among the secrets in use, each opens what it sealed and none opens what another sealed. */
  ghost predicate Trusted(c: Cipher, secrets: set<Secret>)
  {
    && (forall s, iv, plain :: s in secrets ==> c.open(c.derive(s), iv, c.seal(c.derive(s), iv, plain)) == Some(plain))
    && (forall s, other, iv, plain :: s in secrets && other in secrets && s != other ==>
          c.open(c.derive(other), iv, c.seal(c.derive(s), iv, plain)) == None)
  }

  /** The blob holds `pem`, sealed under `secret`. */
  ghost predicate Holds(c: Cipher, blob: Text, secret: Secret, pem: Pem)
  {
    exists iv :: blob == Encrypt(c, secret, iv, pem)
  }

  lemma DecryptSealed(c: Cipher, secrets: set<Secret>, blob: Text, secret: Secret, pem: Pem, s: Secret)
    requires Trusted(c, secrets) && secret in secrets && s in secrets && Holds(c, blob, secret, pem)
    ensures Decrypt(c, s, blob) == if s == secret then Some(pem) else None
  {
    hide Split, Envelope, Utf8, FromUtf8;
    var iv :| blob == Encrypt(c, secret, iv, pem);
    var sealed := c.seal(c.derive(secret), iv, Utf8(pem));
    EnvelopeParts(iv, sealed.tag, sealed.ciphertext);
    Utf8RoundTrip(pem);
  }

  lemma {:induction false} TryPreviousFinds(c: Cipher, secrets: set<Secret>, config: Config, blob: Text, secret: Secret, pem: Pem, i: nat)
    requires Trusted(c, secrets) && config.Secrets() <= secrets && secret in secrets && Holds(c, blob, secret, pem)
    requires i <= |config.previous| && secret != config.active
    ensures TryPrevious(c, config, blob, i) == if secret in config.previous[i..] then Some(Migration(pem, true)) else None
    decreases |config.previous| - i
  {
    hide Holds, Decrypt;
    if i < |config.previous| {
      assert config.previous[i] in config.Secrets();
      DecryptSealed(c, secrets, blob, secret, pem, config.previous[i]);
      TryPreviousFinds(c, secrets, config, blob, secret, pem, i + 1);
      assert config.previous[i..] == [config.previous[i]] + config.previous[i + 1..];
    }
  }

  /**
   A stored key is readable exactly when the secret that sealed it is still
   configured; what comes out is then the key that went in, and it is flagged for
   re-encryption exactly when that secret is no longer the active one.
  */
  lemma MigrationIsExact(c: Cipher, secrets: set<Secret>, config: Config, blob: Text, secret: Secret, pem: Pem)
    requires Trusted(c, secrets) && config.Secrets() <= secrets && secret in secrets && Holds(c, blob, secret, pem)
    ensures DecryptWithMigration(c, config, blob) ==
              if secret in config.Secrets() then Some(Migration(pem, secret != config.active)) else None
  {
    hide Holds, Decrypt, TryPrevious;
    assert config.active in config.Secrets();
    DecryptSealed(c, secrets, blob, secret, pem, config.active);
    if secret != config.active {
      TryPreviousFinds(c, secrets, config, blob, secret, pem, 0);
      assert config.previous[0..] == config.previous;
    }
  }

  /** The laws asked of the cipher can be met, whatever secrets are in use. */
  lemma TrustIsSatisfiable(secrets: set<Secret>)
    ensures exists c: Cipher :: Trusted(c, secrets)
  {
    var c := Cipher(
      (s: Secret) => Spread(s),
      (key: seq<Byte>, iv: seq<Byte>, plain: seq<Byte>) => Sealed(plain, key),
      (key: seq<Byte>, iv: seq<Byte>, sealed: Sealed) => if sealed.tag == key then Some(sealed.ciphertext) else None);
    forall s, other | s in secrets && other in secrets && s != other ensures c.derive(s) != c.derive(other) {
      SpreadInjective(s, other);
    }
    assert Trusted(c, secrets);
  }

  function Spread(t: Text): seq<Byte>
  {
    if t == [] then [] else [t[0] / 0x100, t[0] % 0x100] + Spread(t[1..])
  }

  lemma {:induction false} SpreadInjective(s: Text, t: Text)
    ensures Spread(s) == Spread(t) ==> s == t
  {
    if s != [] && t != [] && Spread(s) == Spread(t) {
      assert Spread(s)[0] == s[0] / 0x100 && Spread(s)[1] == s[0] % 0x100 && Spread(s)[2..] == Spread(s[1..]);
      assert Spread(t)[0] == t[0] / 0x100 && Spread(t)[1] == t[0] % 0x100 && Spread(t)[2..] == Spread(t[1..]);
      SpreadInjective(s[1..], t[1..]);
      assert s == [s[0]] + s[1..] && t == [t[0]] + t[1..];
    }
  }
}
