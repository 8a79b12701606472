/**
 Signing of canonical payloads with a user's stored Ed25519 key.

 The signature scheme is a parameter; a signature is its base64 text. Payloads are
 flat objects with string or null values, in any order of keys.
*/
module Signing {
  import opened Wrappers
  import opened Bytes
  import opened Unicode
  import opened Json
  import opened KeyOrder
  import opened SigningKeys

  datatype Scheme = Scheme(
    sign: (Text, seq<Byte>) -> Text,
    accepts: (Text, seq<Byte>, Text) -> bool)

  datatype Error = NoSigningKey | KeyUnreadable | EmptyPublicKey | EmptySignature

  // ---- canonical bytes -----------------------------------------------------

  /** `canonicalize`: the properties in sorted order of keys, printed and encoded. */
  function Canonicalize(payload: Object): seq<Byte>
  {
    Utf8(Stringify(Reorder(ByUnits, payload)))
  }

  /** Two payloads have the same canonical bytes exactly when they are the same key-to-value map. */
  lemma CanonicalizeIsExact(p: Object, q: Object)
    ensures Canonicalize(p) == Canonicalize(q) <==> AsMap(p) == AsMap(q)
  {
    hide Reorder, Stringify, Utf8;
    ReorderIsCanonical(ByUnits, p, q);
    if Canonicalize(p) == Canonicalize(q) {
      BytesInjective(Reorder(ByUnits, p), Reorder(ByUnits, q));
    }
  }

  /** The canonical bytes are those of the same properties listed with their keys ascending by code units. */
  lemma CanonicalFormIsExact(p: Object, q: Object)
    requires forall e :: e in p <==> e in q
    requires forall i, j :: 0 <= i < j < |q| ==> ComesBefore(q[i].key, q[j].key)
    ensures Canonicalize(p) == Utf8(Stringify(q))
  {
    hide Reorder, Stringify, Utf8, AsMap, ComesBefore, Lex;
    forall i, j | 0 <= i < j < |q| ensures Le(ByUnits, Keys(q)[i], Keys(q)[j]) {
      LexIsFirstDifference(q[i].key, q[j].key);
    }
    SameEntriesSameMap(p, q);
    ReorderIsCanonical(ByUnits, p, q);
    ReorderFixes(ByUnits, q);
  }

  lemma SameEntriesSameMap(p: Object, q: Object)
    requires forall e :: e in p <==> e in q
    ensures AsMap(p) == AsMap(q)
  {
    hide AsMap;
    forall k ensures (k in AsMap(p) <==> k in AsMap(q)) && (k in AsMap(p) ==> AsMap(p)[k] == AsMap(q)[k]) {
      if k in AsMap(p) { EntryIn(p, q, k); }
      if k in AsMap(q) { EntryIn(q, p, k); }
    }
  }

  lemma EntryIn(p: Object, q: Object, k: Text)
    requires k in AsMap(p) && forall e :: e in p ==> e in q
    ensures k in AsMap(q) && AsMap(p)[k] == AsMap(q)[k]
  {
    hide AsMap;
    var i :| 0 <= i < |p| && Keys(p)[i] == k;
    MapAt(p, i);
    assert p[i] in q;
    var j :| 0 <= j < |q| && q[j] == p[i];
    MapAt(q, j);
  }

  // ---- sign and verify -----------------------------------------------------

  datatype KeyRow = KeyRow(publicKey: Text, encrypted: Text)

  /** The process configuration and the `signing_keys` table. */
  datatype State = State(config: Config, keys: map<User, KeyRow>)

  function SignOutcome(c: Cipher, scheme: Scheme, st: State, user: User, payload: Object): Result<Text, Error>
  {
    if user !in st.keys then Err(NoSigningKey) else
    match DecryptWithMigration(c, st.config, st.keys[user].encrypted)
    case None => Err(KeyUnreadable)
    case Some(m) => Ok(scheme.sign(m.pem, Canonicalize(payload)))
  }

  /** The table after a signature: the user's envelope is rewritten when an older secret had to open it. */
  function AfterSign(c: Cipher, st: State, user: User, iv: seq<Byte>): State
  {
    if user !in st.keys then st else
    match DecryptWithMigration(c, st.config, st.keys[user].encrypted)
    case None => st
    case Some(m) =>
      if !m.needsReencryption then st
      else st.(keys := st.keys[user := st.keys[user].(encrypted := Encrypt(c, st.config.active, iv, m.pem))])
  }

  /** `ON CONFLICT (user_id) DO NOTHING` */
  function AfterGenerate(c: Cipher, st: State, user: User, publicKey: Text, privateKey: Text, iv: seq<Byte>): State
  {
    if user in st.keys then st
    else st.(keys := st.keys[user := KeyRow(publicKey, Encrypt(c, st.config.active, iv, privateKey))])
  }

  function Verify(scheme: Scheme, publicKey: Text, payload: Object, signature: Text): Result<bool, Error>
  {
    if publicKey == [] then Err(EmptyPublicKey)
    else if signature == [] then Err(EmptySignature)
    else Ok(scheme.accepts(publicKey, Canonicalize(payload), signature))
  }

  function VerifyForUserOutcome(scheme: Scheme, st: State, user: User, payload: Object, signature: Text): Result<bool, Error>
  {
    if !HasKey(st, user) then Ok(false) else Verify(scheme, st.keys[user].publicKey, payload, signature)
  }

  predicate HasKey(st: State, user: User) { user in st.keys && st.keys[user].publicKey != [] }

  /** Outright: without a stored public key the answer is no; with one it is the scheme's, and only an empty signature is an error. */
  lemma VerdictIsExact(scheme: Scheme, st: State, user: User, payload: Object, signature: Text)
    ensures var r := VerifyForUserOutcome(scheme, st, user, payload, signature);
            && (r == Ok(true) <==>
                  && user in st.keys && st.keys[user].publicKey != [] && signature != []
                  && scheme.accepts(st.keys[user].publicKey, Canonicalize(payload), signature))
            && (user !in st.keys || st.keys[user].publicKey == [] ==> r == Ok(false))
            && (r == Err(EmptySignature) <==> user in st.keys && st.keys[user].publicKey != [] && signature == [])
            && (r.Err? ==> r == Err(EmptySignature))
    ensures forall publicKey :: Verify(scheme, publicKey, payload, signature) ==
              if publicKey == [] then Err(EmptyPublicKey) else if signature == [] then Err(EmptySignature)
              else Ok(scheme.accepts(publicKey, Canonicalize(payload), signature))
  {
  }

  /** Two payloads get the same verdict from every signature scheme if and only if they are the same key-to-value map. */
  lemma VerdictSeesTheMapOnly(st: State, user: User, p: Object, q: Object, signature: Text)
    requires user in st.keys && st.keys[user].publicKey != [] && signature != []
    ensures AsMap(p) == AsMap(q) <==>
              forall scheme :: VerifyForUserOutcome(scheme, st, user, p, signature) == VerifyForUserOutcome(scheme, st, user, q, signature)
  {
    hide Canonicalize, AsMap;
    CanonicalizeIsExact(p, q);
    var picky := Scheme((_, data) => data, (_, data, _) => data == Canonicalize(p));
    assert VerifyForUserOutcome(picky, st, user, p, signature) == VerifyForUserOutcome(picky, st, user, q, signature) ==>
      Canonicalize(p) == Canonicalize(q);
  }

  /**
   Signing under any configuration: which error, whose key, and what happens to the table.
   Only an envelope that the active secret does not open is rewritten, and only its text.
  */
  lemma SignIsExact(c: Cipher, scheme: Scheme, st: State, user: User, payload: Object, iv: seq<Byte>)
    ensures var r, after := SignOutcome(c, scheme, st, user, payload), AfterSign(c, st, user, iv);
            if user !in st.keys then r == Err(NoSigningKey) && after == st else
            var blob := st.keys[user].encrypted;
            if Opens(c, st.config.active, blob) then
              r == Ok(scheme.sign(Decrypt(c, st.config.active, blob).value, Canonicalize(payload))) && after == st
            else if forall i :: 0 <= i < |st.config.previous| ==> !Opens(c, st.config.previous[i], blob) then
              r == Err(KeyUnreadable) && after == st
            else exists i :: 0 <= i < |st.config.previous| && OpensFirst(c, st.config, blob, i) &&
                   var pem := Decrypt(c, st.config.previous[i], blob).value;
                   && r == Ok(scheme.sign(pem, Canonicalize(payload)))
                   && after == State(st.config, st.keys[user := KeyRow(st.keys[user].publicKey, Encrypt(c, st.config.active, iv, pem))])
  {
    hide Decrypt, DecryptWithMigration, Encrypt, Canonicalize;
    if user in st.keys {
      MigrationTakesTheFirst(c, st.config, st.keys[user].encrypted);
    }
  }

  /** A first key pair is stored, the private half sealed under the active secret; later ones are dropped. */
  lemma GenerateIsExact(c: Cipher, st: State, user: User, publicKey: Text, privateKey: Text, iv: seq<Byte>)
    ensures var after := AfterGenerate(c, st, user, publicKey, privateKey, iv);
            && after.config == st.config
            && (user in st.keys ==> after.keys == st.keys)
            && (user !in st.keys ==>
                  && after.keys == st.keys[user := KeyRow(publicKey, after.keys[user].encrypted)]
                  && Split(after.keys[user].encrypted) == Split(Encrypt(c, st.config.active, iv, privateKey)))
  {
  }

  class SigningService {
    const cipher: Cipher
    const scheme: Scheme
    var config: Config
    var keys: map<User, KeyRow>

    ghost function Current(): State reads this { State(config, keys) }

    constructor (cipher: Cipher, scheme: Scheme, config: Config)
      ensures this.cipher == cipher && this.scheme == scheme
      ensures Current() == State(config, map[])
    {
      this.cipher, this.scheme, this.config, this.keys := cipher, scheme, config, map[];
    }

    method GenerateKeypairForUser(user: User, publicKey: Text, privateKey: Pem, iv: seq<Byte>)
      modifies this`keys
      ensures Current() == AfterGenerate(cipher, old(Current()), user, publicKey, privateKey, iv)
    {
      var encrypted := Encrypt(cipher, config.active, iv, privateKey);
      if user !in keys {
        keys := keys[user := KeyRow(publicKey, encrypted)];
      }
    }

    method Sign(user: User, payload: Object, iv: seq<Byte>) returns (r: Result<Text, Error>)
      modifies this`keys
      ensures r == SignOutcome(cipher, scheme, old(Current()), user, payload)
      ensures Current() == AfterSign(cipher, old(Current()), user, iv)
    {
      if user !in keys {
        return Err(NoSigningKey);
      }
      var migration := TrySecrets(cipher, config, keys[user].encrypted);
      if migration.None? {
        return Err(KeyUnreadable);
      }
      var Migration(privateKeyPem, needsReencryption) := migration.value;
      if needsReencryption {
        keys := keys[user := keys[user].(encrypted := Encrypt(cipher, config.active, iv, privateKeyPem))];
      }
      r := Ok(scheme.sign(privateKeyPem, Canonicalize(payload)));
    }

    method VerifyForUser(user: User, payload: Object, signature: Text) returns (r: Result<bool, Error>)
      ensures r == VerifyForUserOutcome(scheme, Current(), user, payload, signature)
      ensures r == Ok(true) <==>
                && user in keys && keys[user].publicKey != [] && signature != []
                && scheme.accepts(keys[user].publicKey, Canonicalize(payload), signature)
      ensures user !in keys || keys[user].publicKey == [] ==> r == Ok(false)
    {
      VerdictIsExact(scheme, Current(), user, payload, signature);
      if user !in keys || keys[user].publicKey == [] {
        return Ok(false);
      }
      r := Verify(scheme, keys[user].publicKey, payload, signature);
    }

    method Restart(config: Config)
      modifies this`config
      ensures Current() == old(Current()).(config := config)
    {
      this.config := config;
    }
  }

  // ---- whole runs ----------------------------------------------------------

  datatype Step =
    | Generate(user: User, publicKey: Text, privateKey: Pem, iv: seq<Byte>)
    | SignOne(user: User, iv: seq<Byte>)
    | Reconfigure(config: Config)

  function Apply(c: Cipher, st: State, step: Step): State
  {
    match step
    case Generate(user, publicKey, privateKey, iv) => AfterGenerate(c, st, user, publicKey, privateKey, iv)
    case SignOne(user, iv) => AfterSign(c, st, user, iv)
    case Reconfigure(config) => st.(config := config)
  }

  function Run(c: Cipher, st: State, steps: seq<Step>): State
    decreases |steps|
  {
    if steps == [] then st else Run(c, Apply(c, st, steps[0]), steps[1..])
  }

  /** What a generated key pair is: everything signed with one half is accepted by the other. */
  ghost predicate KeyPair(scheme: Scheme, privateKey: Text, publicKey: Text)
  {
    && publicKey != []
    && forall data {:trigger scheme.sign(privateKey, data)} ::
         scheme.sign(privateKey, data) != [] && scheme.accepts(publicKey, data, scheme.sign(privateKey, data))
  }

  /** The one thing an operator must do: a new configuration still opens every stored envelope. */
  predicate KeepsKeysReadable(c: Cipher, st: State, config: Config)
  {
    forall u :: u in st.keys ==> DecryptWithMigration(c, config, st.keys[u].encrypted).Some?
  }

  ghost predicate Allowed(c: Cipher, scheme: Scheme, secrets: set<Secret>, st: State, step: Step)
  {
    match step
    case Generate(_, publicKey, privateKey, _) => KeyPair(scheme, privateKey, publicKey)
    case SignOne(_, _) => true
    case Reconfigure(config) => config.Secrets() <= secrets && KeepsKeysReadable(c, st, config)
  }

  ghost predicate AllAllowed(c: Cipher, scheme: Scheme, secrets: set<Secret>, st: State, steps: seq<Step>)
    decreases |steps|
  {
    steps == [] || (Allowed(c, scheme, secrets, st, steps[0]) && AllAllowed(c, scheme, secrets, Apply(c, st, steps[0]), steps[1..]))
  }

  ghost predicate RowHolds(c: Cipher, scheme: Scheme, config: Config, row: KeyRow, pem: Pem)
  {
    && KeyPair(scheme, pem, row.publicKey)
    && exists s :: s in config.Secrets() && Holds(c, row.encrypted, s, pem)
  }

  /** Every stored envelope holds the private key in `pems`, under a configured secret. */
  ghost predicate Safe(c: Cipher, scheme: Scheme, secrets: set<Secret>, st: State, pems: map<User, Pem>)
  {
    && Trusted(c, secrets)
    && st.config.Secrets() <= secrets
    && st.keys.Keys == pems.Keys
    && forall u :: u in pems ==> RowHolds(c, scheme, st.config, st.keys[u], pems[u])
  }

  ghost function Generated(pems: map<User, Pem>, step: Step): map<User, Pem>
  {
    if step.Generate? && step.user !in pems then pems[step.user := step.privateKey] else pems
  }

  ghost function GeneratedBy(pems: map<User, Pem>, steps: seq<Step>): map<User, Pem>
    decreases |steps|
  {
    if steps == [] then pems else GeneratedBy(Generated(pems, steps[0]), steps[1..])
  }

  lemma FreshEnvelopeHolds(c: Cipher, scheme: Scheme, config: Config, row: KeyRow, pem: Pem, iv: seq<Byte>)
    requires KeyPair(scheme, pem, row.publicKey) && row.encrypted == Encrypt(c, config.active, iv, pem)
    ensures Holds(c, row.encrypted, config.active, pem) && RowHolds(c, scheme, config, row, pem)
  {
    assert config.active in config.Secrets();
  }

  lemma ReadRow(c: Cipher, scheme: Scheme, secrets: set<Secret>, st: State, pems: map<User, Pem>, user: User, config: Config)
    requires Safe(c, scheme, secrets, st, pems) && user in pems && config.Secrets() <= secrets
    ensures var m := DecryptWithMigration(c, config, st.keys[user].encrypted);
            && (m.Some? ==> m.value.pem == pems[user] && RowHolds(c, scheme, config, st.keys[user], pems[user]))
            && (m.Some? && !m.value.needsReencryption ==> Holds(c, st.keys[user].encrypted, config.active, pems[user]))
            && (config == st.config ==> m.Some?)
  {
    hide KeyPair, Holds, Trusted, DecryptWithMigration;
    assert RowHolds(c, scheme, st.config, st.keys[user], pems[user]);
    var s :| s in st.config.Secrets() && Holds(c, st.keys[user].encrypted, s, pems[user]);
    MigrationIsExact(c, secrets, config, st.keys[user].encrypted, s, pems[user]);
  }

  lemma StepIsSafe(c: Cipher, scheme: Scheme, secrets: set<Secret>, st: State, pems: map<User, Pem>, step: Step)
    requires Safe(c, scheme, secrets, st, pems) && Allowed(c, scheme, secrets, st, step)
    ensures Safe(c, scheme, secrets, Apply(c, st, step), Generated(pems, step))
  {
    hide KeyPair, Holds, Trusted, DecryptWithMigration, RowHolds, Encrypt;
    match step
    case Generate(user, publicKey, privateKey, iv) =>
      FreshEnvelopeHolds(c, scheme, st.config, KeyRow(publicKey, Encrypt(c, st.config.active, iv, privateKey)), privateKey, iv);
    case SignOne(user, iv) =>
      if user in pems {
        ReadRow(c, scheme, secrets, st, pems, user, st.config);
        RowIsPaired(c, scheme, st.config, st.keys[user], pems[user]);
        var row := st.keys[user].(encrypted := Encrypt(c, st.config.active, iv, pems[user]));
        FreshEnvelopeHolds(c, scheme, st.config, row, pems[user], iv);
      }
    case Reconfigure(config) =>
      forall u | u in pems ensures RowHolds(c, scheme, config, st.keys[u], pems[u]) {
        ReadRow(c, scheme, secrets, st, pems, u, config);
      }
  }

  lemma RowIsPaired(c: Cipher, scheme: Scheme, config: Config, row: KeyRow, pem: Pem)
    requires RowHolds(c, scheme, config, row, pem)
    ensures KeyPair(scheme, pem, row.publicKey)
  {
  }

  /** No run loses a key or changes one: whoever had a key has that same key at the end. */
  lemma {:induction false} RunIsSafe(c: Cipher, scheme: Scheme, secrets: set<Secret>, st: State, pems: map<User, Pem>, steps: seq<Step>)
    requires Safe(c, scheme, secrets, st, pems) && AllAllowed(c, scheme, secrets, st, steps)
    ensures Safe(c, scheme, secrets, Run(c, st, steps), GeneratedBy(pems, steps))
    ensures forall u :: u in pems ==> u in GeneratedBy(pems, steps) && GeneratedBy(pems, steps)[u] == pems[u]
    decreases |steps|
  {
    hide Safe, Allowed, Apply;
    if steps != [] {
      StepIsSafe(c, scheme, secrets, st, pems, steps[0]);
      RunIsSafe(c, scheme, secrets, Apply(c, st, steps[0]), Generated(pems, steps[0]), steps[1..]);
    }
  }

  /** Signing always succeeds for a user with a key, uses the original key, and leaves the envelope under the active secret. */
  lemma SignNeverLosesTheKey(c: Cipher, scheme: Scheme, secrets: set<Secret>, st: State, pems: map<User, Pem>, user: User, payload: Object, iv: seq<Byte>)
    requires Safe(c, scheme, secrets, st, pems)
    ensures SignOutcome(c, scheme, st, user, payload) ==
              if user in pems then Ok(scheme.sign(pems[user], Canonicalize(payload))) else Err(NoSigningKey)
    ensures user in pems ==>
              var after := AfterSign(c, st, user, iv);
              && user in after.keys
              && Holds(c, after.keys[user].encrypted, st.config.active, pems[user])
              && Decrypt(c, st.config.active, after.keys[user].encrypted) == Some(pems[user])
    ensures forall u :: u in st.keys && u != user ==> u in AfterSign(c, st, user, iv).keys && AfterSign(c, st, user, iv).keys[u] == st.keys[u]
  {
    hide KeyPair, Trusted, DecryptWithMigration, RowHolds, Decrypt, Encrypt, Holds;
    if user in pems {
      ReadRow(c, scheme, secrets, st, pems, user, st.config);
      RowIsPaired(c, scheme, st.config, st.keys[user], pems[user]);
      var row := st.keys[user].(encrypted := Encrypt(c, st.config.active, iv, pems[user]));
      FreshEnvelopeHolds(c, scheme, st.config, row, pems[user], iv);
      assert st.config.active in st.config.Secrets();
      var after := AfterSign(c, st, user, iv);
      DecryptSealed(c, secrets, after.keys[user].encrypted, st.config.active, pems[user], st.config.active);
    }
  }

  /** One signature accepted for two different messages. */
  ghost predicate Forgery(scheme: Scheme, publicKey: Text, a: seq<Byte>, b: seq<Byte>, signature: Text)
  {
    a != b && scheme.accepts(publicKey, a, signature) && scheme.accepts(publicKey, b, signature)
  }

  /**
   A signature made at any point of a run is judged at any later point by the
   payload's contents alone: the same key-to-value map passes, and a different one
   passes only together with a forgery against the scheme.
  */
  lemma SignaturesOutliveRuns(c: Cipher, scheme: Scheme, secrets: set<Secret>, st: State, pems: map<User, Pem>, steps: seq<Step>,
                              user: User, signed: Object, checked: Object)
    requires Safe(c, scheme, secrets, st, pems) && AllAllowed(c, scheme, secrets, st, steps) && user in pems
    ensures SignOutcome(c, scheme, st, user, signed).Ok?
    ensures var signature := SignOutcome(c, scheme, st, user, signed).value;
            var later := Run(c, st, steps);
            && user in later.keys
            && (AsMap(signed) == AsMap(checked) ==> VerifyForUserOutcome(scheme, later, user, checked, signature) == Ok(true))
            && (VerifyForUserOutcome(scheme, later, user, checked, signature) == Ok(true) && AsMap(signed) != AsMap(checked) ==>
                  Forgery(scheme, later.keys[user].publicKey, Canonicalize(signed), Canonicalize(checked), signature))
  {
    hide SignOutcome, AfterSign, AllAllowed, Run, GeneratedBy, Canonicalize, Trusted;
    SignNeverLosesTheKey(c, scheme, secrets, st, pems, user, signed, []);
    RunIsSafe(c, scheme, secrets, st, pems, steps);
    var later := Run(c, st, steps);
    assert RowHolds(c, scheme, later.config, later.keys[user], pems[user]);
    CanonicalizeIsExact(signed, checked);
    var signature := scheme.sign(pems[user], Canonicalize(signed));
  }
}
