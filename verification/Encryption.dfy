/** Subject-ruled payload encryption and key rotation (src/nats_sinks/core/encryption.py). */
module Encryption {
  import opened Prelude
  import opened Envelope
  import Subjects
  import Text

  const AES_256_KEY_BYTES := 32
  const SCHEMA := "nats_sinks.encrypted_payload.v1"
  const VERSION := 1

  datatype Algorithm = Gcm | Ccm

  datatype Config = Config(
    enabled: bool, algorithm: Algorithm, keyId: string, keyB64: Option<string>, keyB64Env: Option<string>,
    nonceSize: int, tagLength: int)

  datatype Rule = Rule(
    subject: string, enabled: bool, algorithm: Option<Algorithm>, keyId: Option<string>,
    keyB64: Option<string>, keyB64Env: Option<string>, nonceSize: Option<int>, tagLength: Option<int>)

  type Bytes = seq<byte>

  /** The JSON envelope that takes the place of the message body. */
  datatype Sealed = Sealed(
    schema: string, version: int, algorithm: Algorithm, keyId: string, nonce: Bytes, ciphertext: Bytes,
    tagLength: int, digest: Option<string>, size: Option<int>)

  /** Cipher, base64 and JSON libraries, and the process environment. */
  datatype Crypto = Crypto(
    seal: (Algorithm, Bytes, Bytes, int, Bytes) -> Bytes,
    unseal: (Algorithm, Bytes, Bytes, int, Bytes) -> Option<Bytes>,
    render: Sealed -> Bytes,
    parse: Bytes -> Option<Sealed>,
    base64: string -> Option<Bytes>,
    environment: map<string, string>)

  datatype Error =
    | AmbiguousKeySource | KeyNotConfigured | KeyUnreadable | NoKeyConfigs | DuplicateKeyId
    | NotAnEnvelope | AlgorithmMismatch | KeyIdMismatch | SchemaMismatch | VersionMismatch
    | CannotDecrypt | SizeMismatch | DigestMismatch | KeyIdMissing | KeyIdUnknown

  // ---------------------------------------------------------------- configuration

  /** _decode_aes_256_key. */
  function DecodeKey(crypto: Crypto, text: string): Option<Bytes> {
    var decoded := crypto.base64(text);
    if decoded.Some? && |decoded.value| == AES_256_KEY_BYTES then decoded else None
  }

  /** What both validators ask of a key source: not two of them, a readable key, a named variable. */
  predicate ValidSource(crypto: Crypto, keyB64: Option<string>, keyB64Env: Option<string>) {
    && !(keyB64.Some? && keyB64Env.Some?)
    && (keyB64.Some? ==> DecodeKey(crypto, keyB64.value).Some?)
    && (keyB64Env.Some? ==> Text.Strip(keyB64Env.value) != "")
  }

  /** validate_key_sources and validate_key_id of the top-level section and of its rules. */
  predicate ValidConfig(crypto: Crypto, config: Config, rules: seq<Rule>) {
    && ValidSource(crypto, config.keyB64, config.keyB64Env)
    && (config.enabled ==> config.keyB64.Some? || config.keyB64Env.Some?) && config.keyId != ""
    && forall r | r in rules ::
         && r.keyId != Some("") && ValidSource(crypto, r.keyB64, r.keyB64Env)
         && (r.enabled && r.keyB64.None? && r.keyB64Env.None? ==> config.keyB64.Some? || config.keyB64Env.Some?)
  }

  function Inherit<T>(own: Option<T>, inherited: Option<T>): Option<T> {
    if own.Some? then own else inherited
  }

  /** effective_rule_config; building the concrete section validates its key sources again. */
  function EffectiveRuleConfig(config: Config, rule: Rule): Result<Config, Error> {
    var keyB64, keyB64Env := Inherit(rule.keyB64, config.keyB64), Inherit(rule.keyB64Env, config.keyB64Env);
    if keyB64.Some? && keyB64Env.Some? then Failure(AmbiguousKeySource)
    else if rule.enabled && keyB64.None? && keyB64Env.None? then Failure(KeyNotConfigured)
    else
      Success(Config(rule.enabled, rule.algorithm.GetOr(config.algorithm), rule.keyId.GetOr(config.keyId),
                     keyB64, keyB64Env, rule.nonceSize.GetOr(config.nonceSize), rule.tagLength.GetOr(config.tagLength)))
  }

  // ---------------------------------------------------------------- one encryptor

  datatype Encryptor = Encryptor(config: Config, key: Bytes)

  /** resolve_key. */
  function ResolveKey(crypto: Crypto, config: Config): Result<Bytes, Error> {
    if config.keyB64.None? && (config.keyB64Env.None? || config.keyB64Env.value !in crypto.environment) then
        Failure(KeyNotConfigured)
    else
      var text := if config.keyB64.Some? then config.keyB64.value else crypto.environment[config.keyB64Env.value];
      var key := DecodeKey(crypto, text);
      if key.None? then Failure(KeyUnreadable) else Success(key.value)
  }

  function NewEncryptor(crypto: Crypto, config: Config): Result<Encryptor, Error> {
    var key :- ResolveKey(crypto, config);
    Success(Encryptor(config, key))
  }

  /** encrypt_bytes with a given fresh nonce. */
  function EncryptBytes(lib: Library, crypto: Crypto, e: Encryptor, nonce: Bytes, plaintext: Bytes): Bytes {
    var tagLength := if e.config.algorithm.Gcm? then 16 else e.config.tagLength;
    crypto.render(Sealed(SCHEMA, VERSION, e.config.algorithm, e.config.keyId, nonce,
                        crypto.seal(e.config.algorithm, e.key, nonce, tagLength, plaintext),
                        tagLength, Some(lib.sha256Hex(plaintext)), Some(|plaintext|)))
  }

  /** PayloadEncryptor.decrypt_payload, on a parsed envelope. */
  function Decrypt(lib: Library, crypto: Crypto, e: Encryptor, s: Sealed): Result<Bytes, Error> {
    if s.algorithm != e.config.algorithm then Failure(AlgorithmMismatch)
    else if s.keyId != e.config.keyId then Failure(KeyIdMismatch)
    else if s.schema != SCHEMA then Failure(SchemaMismatch)
    else if s.version != VERSION then Failure(VersionMismatch)
    else
      var tagLength := if s.algorithm.Gcm? then 16 else s.tagLength;
      var plaintext := crypto.unseal(s.algorithm, e.key, s.nonce, tagLength, s.ciphertext);
      if plaintext.None? then Failure(CannotDecrypt)
      else if s.size.Some? && s.size.value != |plaintext.value| then Failure(SizeMismatch)
      else if s.digest.Some? && s.digest.value != lib.sha256Hex(plaintext.value) then Failure(DigestMismatch)
      else Success(plaintext.value)
  }

  // ---------------------------------------------------------------- rules by subject

  /** The compiled policy: ordered rules and a fallback; None leaves messages unchanged. */
  datatype Policy = Policy(rules: seq<(string, Option<Encryptor>)>, fallback: Option<Encryptor>)

  function CompileRule(crypto: Crypto, config: Config, rule: Rule): Result<Option<Encryptor>, Error> {
    if !rule.enabled then Success(None)
    else
      var effective :- EffectiveRuleConfig(config, rule);
      var e :- NewEncryptor(crypto, effective);
      Success(Some(e))
  }

  function CompileRules(crypto: Crypto, config: Config, rules: seq<Rule>)
    : Result<seq<(string, Option<Encryptor>)>, Error>
  {
    if rules == [] then Success([])
    else
      var first :- CompileRule(crypto, config, rules[0]);
      var rest :- CompileRules(crypto, config, rules[1..]);
      Success([(rules[0].subject, first)] + rest)
  }

  function Compile(crypto: Crypto, config: Config, rules: seq<Rule>): Result<Policy, Error> {
    if config.enabled then
      var e :- NewEncryptor(crypto, config);
      var compiled :- CompileRules(crypto, config, rules);
      Success(Policy(compiled, Some(e)))
    else
      var compiled :- CompileRules(crypto, config, rules);
      Success(Policy(compiled, None))
  }

  /** SubjectPayloadEncryptor.__init__: the rule list is filled in order. */
  method CompileSubjectPolicy(crypto: Crypto, config: Config, rules: seq<Rule>) returns (policy: Result<Policy, Error>)
    ensures policy == Compile(crypto, config, rules)
  {
    var fallback: Option<Encryptor> := None;
    if config.enabled {
      var e := NewEncryptor(crypto, config);
      if e.Failure? {
        return Failure(e.error);
      }
      fallback := Some(e.value);
    }
    var compiled: seq<(string, Option<Encryptor>)> := [];
    ghost var whole := CompileRules(crypto, config, rules);
    assert rules[0..] == rules && (whole.Success? ==> compiled + whole.value == whole.value);
    for i := 0 to |rules|
      invariant var rest := CompileRules(crypto, config, rules[i..]);
        whole == if rest.Success? then Success(compiled + rest.value) else Failure(rest.error)
    {
      assert rules[i..][0] == rules[i] && rules[i..][1..] == rules[i + 1..];
      var e := CompileRule(crypto, config, rules[i]);
      if e.Failure? {
        return Failure(e.error);
      }
      ghost var rest := CompileRules(crypto, config, rules[i + 1..]);
      var entry := (rules[i].subject, e.value);
      assert rest.Success? ==> compiled + ([entry] + rest.value) == (compiled + [entry]) + rest.value;
      compiled := compiled + [entry];
    }
    assert rules[|rules|..] == [] && compiled + [] == compiled;
    policy := Success(Policy(compiled, fallback));
  }

  /** _encryptor_for_subject. */
  function EncryptorFor(rules: seq<(string, Option<Encryptor>)>, fallback: Option<Encryptor>, subject: string)
    : Option<Encryptor>
  {
    if rules == [] then fallback
    else if Subjects.MatchesSubject(rules[0].0, subject) then rules[0].1
    else EncryptorFor(rules[1..], fallback, subject)
  }

  function EncryptEnvelope(lib: Library, crypto: Crypto, policy: Policy, nonce: Bytes, e: Envelope): Envelope {
    var encryptor := EncryptorFor(policy.rules, policy.fallback, e.subject);
    if encryptor.None? then e else ReplaceData(lib, e, EncryptBytes(lib, crypto, encryptor.value, nonce, e.data))
  }

  /** encrypt_batch; nonces holds the fresh random nonce of each message. */
  function EncryptBatch(lib: Library, crypto: Crypto, policy: Policy, nonces: seq<Bytes>, batch: seq<Envelope>)
    : seq<Envelope>
    requires |nonces| == |batch|
  {
    seq(|batch|, i requires 0 <= i < |batch| => EncryptEnvelope(lib, crypto, policy, nonces[i], batch[i]))
  }

  // ---------------------------------------------------------------- registry

  type Registry = map<string, Encryptor>

  function Register(crypto: Crypto, configs: seq<Config>, registry: Registry): Result<Registry, Error>
    decreases |configs|
  {
    if configs == [] then Success(registry)
    else if configs[0].keyId in registry then Failure(DuplicateKeyId)
    else
      var e :- NewEncryptor(crypto, configs[0]);
      Register(crypto, configs[1..], registry[configs[0].keyId := e])
  }

  /** PayloadKeyRegistry.__init__. */
  method NewRegistry(crypto: Crypto, configs: seq<Config>) returns (registry: Result<Registry, Error>)
    ensures registry == if configs == [] then Failure(NoKeyConfigs) else Register(crypto, configs, map[])
  {
    if configs == [] {
      return Failure(NoKeyConfigs);
    }
    var encryptors: Registry := map[];
    assert configs[0..] == configs;
    for i := 0 to |configs|
      invariant Register(crypto, configs[i..], encryptors) == Register(crypto, configs, map[])
    {
      assert configs[i..][0] == configs[i] && configs[i..][1..] == configs[i + 1..];
      if configs[i].keyId in encryptors {
        return Failure(DuplicateKeyId);
      }
      var e := NewEncryptor(crypto, configs[i]);
      if e.Failure? {
        return Failure(e.error);
      }
      encryptors := encryptors[configs[i].keyId := e.value];
    }
    registry := Success(encryptors);
  }

  /** PayloadKeyRegistry.decrypt_payload. */
  function RegistryDecrypt(lib: Library, crypto: Crypto, registry: Registry, data: Bytes): Result<Bytes, Error> {
    var s := crypto.parse(data);
    if s.None? then Failure(NotAnEnvelope)
    else if s.value.keyId == "" then Failure(KeyIdMissing)
    else if s.value.keyId !in registry then Failure(KeyIdUnknown)
    else Decrypt(lib, crypto, registry[s.value.keyId], s.value)
  }
}

module EncryptionProofs {
  import opened Prelude
  import opened Envelope
  import opened Encryption
  import EnvelopeProofs
  import Subjects

  /** What the libraries are relied on for: decryption inverts encryption and parsing inverts rendering. */
  ghost predicate Sound(crypto: Crypto) {
    && (forall alg: Algorithm, key: Bytes, nonce: Bytes, tag: int, text: Bytes ::
          crypto.unseal(alg, key, nonce, tag, crypto.seal(alg, key, nonce, tag, text)) == Some(text))
    && (forall s: Sealed :: crypto.render(s) != [] && crypto.parse(crypto.render(s)) == Some(s))
  }

  ghost predicate Received(lib: Library, e: Envelope) {
    exists raw: Envelope, headers: seq<RawHeader> :: e == Construct(lib, raw, headers)
  }

  // ---------------------------------------------------------------- configuration

  /** A rule and its section take their keys from different kinds of source. */
  predicate MixedSources(config: Config, rule: Rule) {
    (rule.keyB64.Some? && config.keyB64Env.Some?) || (rule.keyB64Env.Some? && config.keyB64.Some?)
  }

  /** A validated enabled rule becomes a concrete configuration exactly when its key source is not mixed. */
  lemma EffectiveExactlyWhenNotMixed(crypto: Crypto, config: Config, rules: seq<Rule>, rule: Rule)
    requires ValidConfig(crypto, config, rules) && rule in rules && rule.enabled
    ensures EffectiveRuleConfig(config, rule).Success? <==> !MixedSources(config, rule)
    ensures EffectiveRuleConfig(config, rule).Failure? ==> EffectiveRuleConfig(config, rule).error == AmbiguousKeySource
  {
  }

  /** A key source that a start-up can rely on: the key itself, or a variable that is set to a readable one. */
  predicate KeyAvailable(crypto: Crypto, keyB64: Option<string>, keyB64Env: Option<string>) {
    || keyB64.Some?
    || (keyB64Env.Some? && keyB64Env.value in crypto.environment
        && DecodeKey(crypto, crypto.environment[keyB64Env.value]).Some?)
  }

  /** What an enabled rule needs in order to encrypt. */
  predicate RuleStarts(crypto: Crypto, config: Config, rule: Rule) {
    && !MixedSources(config, rule)
    && KeyAvailable(crypto, Inherit(rule.keyB64, config.keyB64), Inherit(rule.keyB64Env, config.keyB64Env))
  }

  lemma KeyResolvesExactly(crypto: Crypto, config: Config)
    requires ValidSource(crypto, config.keyB64, config.keyB64Env)
    ensures NewEncryptor(crypto, config).Success? <==> KeyAvailable(crypto, config.keyB64, config.keyB64Env)
  {
  }

  lemma RuleCompilesExactly(crypto: Crypto, config: Config, rules: seq<Rule>, rule: Rule)
    requires ValidConfig(crypto, config, rules) && rule in rules && rule.enabled
    ensures CompileRule(crypto, config, rule).Success? <==> RuleStarts(crypto, config, rule)
  {
    EffectiveExactlyWhenNotMixed(crypto, config, rules, rule);
    var effective := EffectiveRuleConfig(config, rule);
    if effective.Success? {
      KeyResolvesExactly(crypto, effective.value);
    }
  }

  lemma {:induction false} RulesCompileWhere(crypto: Crypto, config: Config, rules: seq<Rule>, starts: Rule -> bool)
    requires forall r | r in rules :: CompileRule(crypto, config, r).Success? <==> r.enabled ==> starts(r)
    ensures CompileRules(crypto, config, rules).Success? <==> forall r | r in rules && r.enabled :: starts(r)
  {
    if rules != [] {
      assert rules == [rules[0]] + rules[1..] && rules[0] in rules;
      RulesCompileWhere(crypto, config, rules[1..], starts);
    }
  }

  lemma RulesCompileExactly(crypto: Crypto, config: Config, rules: seq<Rule>)
    requires ValidConfig(crypto, config, rules)
    ensures CompileRules(crypto, config, rules).Success? <==>
            forall r | r in rules && r.enabled :: RuleStarts(crypto, config, r)
  {
    var starts := r => RuleStarts(crypto, config, r);
    forall r | r in rules
      ensures CompileRule(crypto, config, r).Success? <==> r.enabled ==> starts(r)
    {
      if r.enabled {
        RuleCompilesExactly(crypto, config, rules, r);
      }
    }
    RulesCompileWhere(crypto, config, rules, starts);
    assert forall r | r in rules :: starts(r) == RuleStarts(crypto, config, r);
  }

  /** A validated policy starts exactly when every key in use is available and no enabled rule mixes key sources. */
  lemma ValidatedPolicyCompilesExactly(crypto: Crypto, config: Config, rules: seq<Rule>)
    requires ValidConfig(crypto, config, rules)
    ensures Compile(crypto, config, rules).Success? <==>
      && (config.enabled ==> KeyAvailable(crypto, config.keyB64, config.keyB64Env))
      && forall r | r in rules && r.enabled :: RuleStarts(crypto, config, r)
  {
    KeyResolvesExactly(crypto, config);
    RulesCompileExactly(crypto, config, rules);
  }

  /** So even with every key in place a policy may pass validation and not start: a rule's own key is refused. */
  lemma ValidatedPolicyMayNotCompile(crypto: Crypto, key: string)
    requires DecodeKey(crypto, key).Some? && "NATS_SINKS_PAYLOAD_KEY_B64" in crypto.environment
    requires DecodeKey(crypto, crypto.environment["NATS_SINKS_PAYLOAD_KEY_B64"]).Some?
    ensures exists config: Config, rules: seq<Rule> ::
      && ValidConfig(crypto, config, rules) && KeyAvailable(crypto, config.keyB64, config.keyB64Env)
      && (forall r | r in rules :: KeyAvailable(crypto, r.keyB64, r.keyB64Env))
      && Compile(crypto, config, rules) == Failure(AmbiguousKeySource)
  {
    var variable := "NATS_SINKS_PAYLOAD_KEY_B64";
    var config := Config(false, Gcm, "default", None, Some(variable), 12, 16);
    var rule := Rule("orders.*", true, None, None, Some(key), None, None, None);
    assert !Text.IsSpace(variable[0]);
    NamedVariable(variable);
    assert CompileRule(crypto, config, rule) == Failure(AmbiguousKeySource);
    assert ValidConfig(crypto, config, [rule]);
    assert Compile(crypto, config, [rule]) == Failure(AmbiguousKeySource);
  }

  lemma NamedVariable(name: string)
    requires name != "" && !Text.IsSpace(name[0])
    ensures Text.Strip(name) != ""
  {
  }

  // ---------------------------------------------------------------- policy

  /** The encryptor is that of the first rule matching the subject, or the fallback if none does. */
  lemma {:induction false} FirstMatchDecides(rules: seq<(string, Option<Encryptor>)>, fallback: Option<Encryptor>,
                                             subject: string, k: nat)
    requires k <= |rules| && forall j | 0 <= j < k :: !Subjects.MatchesSubject(rules[j].0, subject)
    requires k < |rules| ==> Subjects.MatchesSubject(rules[k].0, subject)
    ensures EncryptorFor(rules, fallback, subject) == if k < |rules| then rules[k].1 else fallback
  {
    if k > 0 {
      FirstMatchDecides(rules[1..], fallback, subject, k - 1);
    }
  }

  /**
   Compiled entry by entry: a disabled rule passes messages through, an enabled one uses its effective
   configuration.
   */
  lemma {:induction false} CompiledRule(crypto: Crypto, config: Config, rules: seq<Rule>, k: nat)
    requires CompileRules(crypto, config, rules).Success?
    ensures |CompileRules(crypto, config, rules).value| == |rules|
    ensures k < |rules| ==>
      var (subject, encryptor) := CompileRules(crypto, config, rules).value[k];
      && subject == rules[k].subject
      && (encryptor.None? <==> !rules[k].enabled)
      && (rules[k].enabled ==>
            EffectiveRuleConfig(config, rules[k]).Success?
            && NewEncryptor(crypto, EffectiveRuleConfig(config, rules[k]).value) == Success(encryptor.value))
  {
    if rules != [] {
      CompiledRule(crypto, config, rules[1..], if k == 0 then 0 else k - 1);
    }
  }

  // ---------------------------------------------------------------- which messages are encrypted, and how

  /** The k-th rule is the first one to match. */
  predicate Decides(rules: seq<Rule>, subject: string, k: nat) {
    && k < |rules| && Subjects.MatchesSubject(rules[k].subject, subject)
    && forall j | 0 <= j < k :: !Subjects.MatchesSubject(rules[j].subject, subject)
  }

  predicate NoneMatches(rules: seq<Rule>, subject: string) {
    forall r | r in rules :: !Subjects.MatchesSubject(r.subject, subject)
  }

  /** Messages of this subject are to be encrypted: by the first matching rule, or by the section if none matches. */
  predicate Protected(config: Config, rules: seq<Rule>, subject: string) {
    || (NoneMatches(rules, subject) && config.enabled)
    || exists k | 0 <= k < |rules| :: Decides(rules, subject, k) && rules[k].enabled
  }

  /** Field by field the rule's own setting, and the section's where the rule has none. */
  predicate OwnOrInherited(config: Config, rule: Rule, used: Config) {
    && used.algorithm == (if rule.algorithm.Some? then rule.algorithm.value else config.algorithm)
    && used.keyId == (if rule.keyId.Some? then rule.keyId.value else config.keyId)
    && used.keyB64 == (if rule.keyB64.Some? then rule.keyB64 else config.keyB64)
    && used.keyB64Env == (if rule.keyB64Env.Some? then rule.keyB64Env else config.keyB64Env)
    && used.nonceSize == (if rule.nonceSize.Some? then rule.nonceSize.value else config.nonceSize)
    && used.tagLength == (if rule.tagLength.Some? then rule.tagLength.value else config.tagLength)
  }

  /** The 32 bytes written in the configuration itself, or else in the variable it names. */
  predicate HoldsKey(crypto: Crypto, used: Config, key: Bytes) {
    && |key| == 32
    && (used.keyB64.Some? ==> crypto.base64(used.keyB64.value) == Some(key))
    && (used.keyB64.None? ==>
          && used.keyB64Env.Some? && used.keyB64Env.value in crypto.environment
          && crypto.base64(crypto.environment[used.keyB64Env.value]) == Some(key))
  }

  lemma KeyIsHeld(crypto: Crypto, config: Config)
    requires NewEncryptor(crypto, config).Success?
    ensures var e := NewEncryptor(crypto, config).value; e.config == config && HoldsKey(crypto, config, e.key)
  {
  }

  lemma FirstMatchExists(rules: seq<Rule>, subject: string) returns (k: nat)
    ensures k == |rules| ==> NoneMatches(rules, subject)
    ensures k < |rules| ==> Decides(rules, subject, k)
    ensures k <= |rules| && (NoneMatches(rules, subject) ==> k == |rules|)
  {
    k := 0;
    while k < |rules| && !Subjects.MatchesSubject(rules[k].subject, subject)
      invariant k <= |rules| && forall j | 0 <= j < k :: !Subjects.MatchesSubject(rules[j].subject, subject)
    {
      k := k + 1;
    }
  }

  lemma CompiledFallback(crypto: Crypto, config: Config, rules: seq<Rule>)
    requires Compile(crypto, config, rules).Success?
    ensures var policy := Compile(crypto, config, rules).value;
      && CompileRules(crypto, config, rules) == Success(policy.rules)
      && (policy.fallback.Some? <==> config.enabled)
      && (config.enabled ==> NewEncryptor(crypto, config) == Success(policy.fallback.value))
  {
  }

  /** Main result on policies: which messages a started policy encrypts, with what settings and what key. */
  lemma ProtectedExactly(crypto: Crypto, config: Config, rules: seq<Rule>, subject: string)
    requires Compile(crypto, config, rules).Success?
    ensures var policy := Compile(crypto, config, rules).value;
      var e := EncryptorFor(policy.rules, policy.fallback, subject);
      && (e.Some? <==> Protected(config, rules, subject))
      && (e.Some? ==>
            && HoldsKey(crypto, e.value.config, e.value.key)
            && (NoneMatches(rules, subject) ==> e.value.config == config)
            && forall k: nat | Decides(rules, subject, k) :: OwnOrInherited(config, rules[k], e.value.config))
  {
    var policy := Compile(crypto, config, rules).value;
    var k := FirstMatchExists(rules, subject);
    CompiledFallback(crypto, config, rules);
    CompiledRule(crypto, config, rules, k);
    forall j | 0 <= j < |rules|
      ensures policy.rules[j].0 == rules[j].subject
    {
      CompiledRule(crypto, config, rules, j);
    }
    FirstMatchDecides(policy.rules, policy.fallback, subject, k);
    if k < |rules| {
      assert rules[k] in rules;
      assert forall i: nat | Decides(rules, subject, i) :: i == k;
      if rules[k].enabled {
        KeyIsHeld(crypto, EffectiveRuleConfig(config, rules[k]).value);
      }
    } else if config.enabled {
      KeyIsHeld(crypto, config);
    }
  }

  // ---------------------------------------------------------------- what an encrypted message carries

  /** Read back, an encrypted message states its format, algorithm, key, nonce and the plaintext's size and digest. */
  lemma EncryptedCarries(lib: Library, crypto: Crypto, e: Encryptor, nonce: Bytes, text: Bytes)
    requires Sound(crypto)
    ensures var s := crypto.parse(EncryptBytes(lib, crypto, e, nonce, text));
      && s.Some? && s.value.schema == "nats_sinks.encrypted_payload.v1" && s.value.version == 1
      && s.value.algorithm == e.config.algorithm && s.value.keyId == e.config.keyId && s.value.nonce == nonce
      && s.value.tagLength == (if e.config.algorithm.Gcm? then 16 else e.config.tagLength)
      && s.value.ciphertext == crypto.seal(e.config.algorithm, e.key, nonce, s.value.tagLength, text)
      && s.value.size == Some(|text|) && s.value.digest == Some(lib.sha256Hex(text))
  {
  }

  /** A registry accepts a message exactly when all that it states is true of the entry under its identifier. */
  lemma DecryptsExactly(lib: Library, crypto: Crypto, registry: Registry, data: Bytes, text: Bytes)
    ensures RegistryDecrypt(lib, crypto, registry, data) == Success(text) <==>
      && crypto.parse(data).Some?
      && var s := crypto.parse(data).value;
      && s.keyId != "" && s.keyId in registry
      && registry[s.keyId].config.keyId == s.keyId && registry[s.keyId].config.algorithm == s.algorithm
      && s.schema == "nats_sinks.encrypted_payload.v1" && s.version == 1
      && crypto.unseal(s.algorithm, registry[s.keyId].key, s.nonce, if s.algorithm.Gcm? then 16 else s.tagLength,
                       s.ciphertext) == Some(text)
      && (s.size.Some? ==> s.size.value == |text|)
      && (s.digest.Some? ==> s.digest.value == lib.sha256Hex(text))
  {
  }

  // ---------------------------------------------------------------- registry

  lemma {:induction false} RegistryHolds(crypto: Crypto, configs: seq<Config>, registry: Registry, keyId: string)
    requires Register(crypto, configs, registry).Success?
    ensures var r := Register(crypto, configs, registry).value;
      && (keyId in registry ==> keyId in r && r[keyId] == registry[keyId])
      && forall c | c in configs :: c.keyId in r && NewEncryptor(crypto, c) == Success(r[c.keyId])
    decreases |configs|
  {
    if configs != [] {
      var c := configs[0];
      var e := NewEncryptor(crypto, c).value;
      RegistryHolds(crypto, configs[1..], registry[c.keyId := e], keyId);
      RegistryHolds(crypto, configs[1..], registry[c.keyId := e], c.keyId);
      assert configs == [c] + configs[1..];
    }
  }

  // ---------------------------------------------------------------- round trip

  /** Decryption looks only at these parts of a configuration; sizes travel with the message. */
  predicate Opens(registered: Encryptor, used: Encryptor) {
    && registered.config.keyId == used.config.keyId
    && registered.config.algorithm == used.config.algorithm && registered.key == used.key
  }

  lemma DecryptInverts(lib: Library, crypto: Crypto, e: Encryptor, registry: Registry, nonce: Bytes, text: Bytes)
    requires Sound(crypto) && e.config.keyId != "" && e.config.keyId in registry && Opens(registry[e.config.keyId], e)
    ensures EncryptBytes(lib, crypto, e, nonce, text) != []
    ensures RegistryDecrypt(lib, crypto, registry, EncryptBytes(lib, crypto, e, nonce, text)) == Success(text)
  {
    var tagLength := if e.config.algorithm.Gcm? then 16 else e.config.tagLength;
    var s := Sealed(SCHEMA, VERSION, e.config.algorithm, e.config.keyId, nonce,
                    crypto.seal(e.config.algorithm, e.key, nonce, tagLength, text),
                    tagLength, Some(lib.sha256Hex(text)), Some(|text|));
    assert crypto.parse(crypto.render(s)) == Some(s);
    assert crypto.unseal(s.algorithm, e.key, s.nonce, tagLength, s.ciphertext) == Some(text);
  }

  /** A key other than the one that sealed a text does not yield that text. */
  ghost predicate KeyBound(crypto: Crypto) {
    forall alg: Algorithm, key: Bytes, other: Bytes, nonce: Bytes, tag: int, text: Bytes | key != other ::
      crypto.unseal(alg, other, nonce, tag, crypto.seal(alg, key, nonce, tag, text)) != Some(text)
  }

  /** Conversely, only an entry with that algorithm and key gives the text back. */
  lemma DecryptNeedsTheKey(lib: Library, crypto: Crypto, e: Encryptor, registry: Registry, nonce: Bytes, text: Bytes)
    requires Sound(crypto) && KeyBound(crypto)
    requires forall id | id in registry :: registry[id].config.keyId == id
    requires RegistryDecrypt(lib, crypto, registry, EncryptBytes(lib, crypto, e, nonce, text)) == Success(text)
    ensures e.config.keyId in registry && Opens(registry[e.config.keyId], e)
  {
    var tagLength := if e.config.algorithm.Gcm? then 16 else e.config.tagLength;
    var s := Sealed(SCHEMA, VERSION, e.config.algorithm, e.config.keyId, nonce,
                    crypto.seal(e.config.algorithm, e.key, nonce, tagLength, text),
                    tagLength, Some(lib.sha256Hex(text)), Some(|text|));
    assert crypto.parse(crypto.render(s)) == Some(s);
    var key := registry[e.config.keyId].key;
    assert crypto.unseal(s.algorithm, key, s.nonce, tagLength, s.ciphertext) == Some(text);
  }

  /**
   Every configuration a policy encrypts with: the section itself if enabled, and its enabled rules' effective
   ones.
   */
  ghost predicate Uses(config: Config, rules: seq<Rule>, used: Config) {
    || (config.enabled && used == config)
    || exists r | r in rules :: r.enabled && EffectiveRuleConfig(config, r) == Success(used)
  }

  /** The configurations in use, as a list. */
  function UsedConfigs(config: Config, rules: seq<Rule>): seq<Config> {
    (if config.enabled then [config] else []) + RuleConfigs(config, rules)
  }

  function RuleConfigs(config: Config, rules: seq<Rule>): seq<Config> {
    if rules == [] then []
    else
      var effective := EffectiveRuleConfig(config, rules[0]);
      (if rules[0].enabled && effective.Success? then [effective.value] else []) + RuleConfigs(config, rules[1..])
  }

  lemma {:induction false} RuleConfigsAreEffective(config: Config, rules: seq<Rule>, used: Config)
    ensures used in RuleConfigs(config, rules) <==>
            exists r | r in rules :: r.enabled && EffectiveRuleConfig(config, r) == Success(used)
  {
    if rules != [] {
      assert rules == [rules[0]] + rules[1..];
      RuleConfigsAreEffective(config, rules[1..], used);
    }
  }

  lemma UsedAreListed(config: Config, rules: seq<Rule>, used: Config)
    ensures used in UsedConfigs(config, rules) <==> Uses(config, rules, used)
  {
    RuleConfigsAreEffective(config, rules, used);
  }

  lemma UsedResolves(crypto: Crypto, config: Config, rules: seq<Rule>, used: Config)
    requires Compile(crypto, config, rules).Success? && Uses(config, rules, used)
    ensures NewEncryptor(crypto, used).Success?
  {
    if !(config.enabled && used == config) {
      var r :| r in rules && r.enabled && EffectiveRuleConfig(config, r) == Success(used);
      var k :| 0 <= k < |rules| && rules[k] == r;
      CompiledRule(crypto, config, rules, k);
    }
  }

  predicate DistinctIds(configs: seq<Config>) {
    forall i, j | 0 <= i < j < |configs| :: configs[i].keyId != configs[j].keyId
  }

  lemma DistinctIdsNext(configs: seq<Config>)
    requires configs != []
    ensures DistinctIds(configs) <==>
            DistinctIds(configs[1..]) && forall c | c in configs[1..] :: c.keyId != configs[0].keyId
  {
    var rest := configs[1..];
    assert forall i | 0 <= i < |rest| :: rest[i] == configs[i + 1] && rest[i] in rest;
    assert forall i | 0 < i < |configs| :: configs[i] == rest[i - 1];
  }

  /** A registry can be built exactly when all keys resolve and no identifier is taken or repeated. */
  lemma {:induction false} RegistersExactly(crypto: Crypto, configs: seq<Config>, registry: Registry)
    ensures Register(crypto, configs, registry).Success? <==>
      && (forall c | c in configs :: NewEncryptor(crypto, c).Success? && c.keyId !in registry)
      && DistinctIds(configs)
    decreases |configs|
  {
    if configs != [] {
      var c, rest := configs[0], configs[1..];
      assert configs == [c] + rest && c in configs;
      DistinctIdsNext(configs);
      if c.keyId !in registry && NewEncryptor(crypto, c).Success? {
        RegistersExactly(crypto, rest, registry[c.keyId := NewEncryptor(crypto, c).value]);
      }
    }
  }

  /** Every identifier of a registry is that of its encryptor. */
  lemma {:induction false} RegisteredUnderId(crypto: Crypto, configs: seq<Config>, registry: Registry)
    requires Register(crypto, configs, registry).Success?
    requires forall id | id in registry :: registry[id].config.keyId == id
    ensures var r := Register(crypto, configs, registry).value; forall id | id in r :: r[id].config.keyId == id
    decreases |configs|
  {
    if configs != [] {
      var c := configs[0];
      RegisteredUnderId(crypto, configs[1..], registry[c.keyId := NewEncryptor(crypto, c).value]);
    }
  }

  predicate HasId(configs: seq<Config>, id: string) {
    exists c | c in configs :: c.keyId == id
  }

  /** One configuration for each identifier. */
  function OnePerId(configs: seq<Config>): seq<Config> {
    if configs == [] then []
    else
      var rest := OnePerId(configs[1..]);
      if HasId(rest, configs[0].keyId) then rest else [configs[0]] + rest
  }

  lemma {:induction false} OnePerIdIsPart(configs: seq<Config>, c: Config)
    requires c in OnePerId(configs)
    ensures c in configs
  {
    assert configs == [configs[0]] + configs[1..];
    if c != configs[0] {
      OnePerIdIsPart(configs[1..], c);
    }
  }

  lemma {:induction false} OnePerIdHasAll(configs: seq<Config>, c: Config)
    requires c in configs
    ensures HasId(OnePerId(configs), c.keyId)
  {
    var rest := OnePerId(configs[1..]);
    if c != configs[0] {
      assert configs == [configs[0]] + configs[1..];
      OnePerIdHasAll(configs[1..], c);
      var d :| d in rest && d.keyId == c.keyId;
      assert d in OnePerId(configs);
    } else if !HasId(rest, c.keyId) {
      assert OnePerId(configs)[0] == c;
    }
  }

  lemma {:induction false} OnePerIdIsDistinct(configs: seq<Config>)
    ensures DistinctIds(OnePerId(configs))
  {
    if configs != [] {
      var rest := OnePerId(configs[1..]);
      OnePerIdIsDistinct(configs[1..]);
      if !HasId(rest, configs[0].keyId) {
        assert ([configs[0]] + rest)[1..] == rest;
        DistinctIdsNext([configs[0]] + rest);
      }
    }
  }

  /** The two configurations read each other's messages. */
  predicate Compatible(crypto: Crypto, a: Config, b: Config) {
    a.algorithm == b.algorithm && ResolveKey(crypto, a) == ResolveKey(crypto, b)
  }

  /** A registered configuration reads what used encrypts. */
  predicate Known(crypto: Crypto, configs: seq<Config>, used: Config) {
    exists c | c in configs :: c.keyId == used.keyId && Compatible(crypto, c, used)
  }

  /** The registry of the given configurations decrypts whatever the policy encrypts. */
  ghost predicate ReadableWith(lib: Library, crypto: Crypto, config: Config, rules: seq<Rule>, configs: seq<Config>) {
    && Register(crypto, configs, map[]).Success?
    && forall used, nonce, text | Uses(config, rules, used) ::
         Reads(lib, crypto, Register(crypto, configs, map[]).value, used, nonce, text)
  }

  predicate Reads(lib: Library, crypto: Crypto, registry: Registry, used: Config, nonce: Bytes, text: Bytes) {
    && NewEncryptor(crypto, used).Success?
    && var sealed := EncryptBytes(lib, crypto, NewEncryptor(crypto, used).value, nonce, text);
    RegistryDecrypt(lib, crypto, registry, sealed) == Success(text)
  }

  /** Some registry decrypts whatever the policy encrypts. */
  ghost predicate Readable(lib: Library, crypto: Crypto, config: Config, rules: seq<Rule>) {
    exists configs :: ReadableWith(lib, crypto, config, rules, configs)
  }

  lemma KnownIsOpened(crypto: Crypto, configs: seq<Config>, used: Config)
    requires Register(crypto, configs, map[]).Success? && NewEncryptor(crypto, used).Success?
    requires Known(crypto, configs, used)
    ensures var registry := Register(crypto, configs, map[]).value;
      used.keyId in registry && Opens(registry[used.keyId], NewEncryptor(crypto, used).value)
  {
    RegistryHolds(crypto, configs, map[], used.keyId);
  }

  lemma ReadsWhatIsKnown(lib: Library, crypto: Crypto, configs: seq<Config>, used: Config, nonce: Bytes, text: Bytes)
    requires Sound(crypto) && used.keyId != "" && NewEncryptor(crypto, used).Success?
    requires Register(crypto, configs, map[]).Success? && Known(crypto, configs, used)
    ensures Reads(lib, crypto, Register(crypto, configs, map[]).value, used, nonce, text)
  {
    KnownIsOpened(crypto, configs, used);
    var registry := Register(crypto, configs, map[]).value;
    DecryptInverts(lib, crypto, NewEncryptor(crypto, used).value, registry, nonce, text);
  }

  lemma ReadIsOpened(lib: Library, crypto: Crypto, configs: seq<Config>, used: Config)
    requires Sound(crypto) && KeyBound(crypto) && Register(crypto, configs, map[]).Success?
    requires Reads(lib, crypto, Register(crypto, configs, map[]).value, used, [], [])
    ensures var registry := Register(crypto, configs, map[]).value;
      used.keyId in registry && Opens(registry[used.keyId], NewEncryptor(crypto, used).value)
  {
    RegisteredUnderId(crypto, configs, map[]);
    var registry := Register(crypto, configs, map[]).value;
    DecryptNeedsTheKey(lib, crypto, NewEncryptor(crypto, used).value, registry, [], []);
  }

  /** No identifier stands for two algorithms or two keys. */
  ghost predicate CompatibleIds(crypto: Crypto, config: Config, rules: seq<Rule>) {
    forall a, b | Uses(config, rules, a) && Uses(config, rules, b) && a.keyId == b.keyId :: Compatible(crypto, a, b)
  }

  lemma ReadableNeedsCompatibleIds(lib: Library, crypto: Crypto, config: Config, rules: seq<Rule>, configs: seq<Config>)
    requires Sound(crypto) && KeyBound(crypto) && ReadableWith(lib, crypto, config, rules, configs)
    ensures CompatibleIds(crypto, config, rules)
  {
    forall a, b | Uses(config, rules, a) && Uses(config, rules, b) && a.keyId == b.keyId
      ensures Compatible(crypto, a, b)
    {
      var registry := Register(crypto, configs, map[]).value;
      assert Reads(lib, crypto, registry, a, [], []) && Reads(lib, crypto, registry, b, [], []);
      ReadIsOpened(lib, crypto, configs, a);
      ReadIsOpened(lib, crypto, configs, b);
    }
  }

  lemma OnePerIdRegisters(crypto: Crypto, config: Config, rules: seq<Rule>)
    requires Compile(crypto, config, rules).Success?
    ensures Register(crypto, OnePerId(UsedConfigs(config, rules)), map[]).Success?
  {
    var used := UsedConfigs(config, rules);
    forall c | c in OnePerId(used)
      ensures NewEncryptor(crypto, c).Success?
    {
      OnePerIdIsPart(used, c);
      UsedAreListed(config, rules, c);
      UsedResolves(crypto, config, rules, c);
    }
    OnePerIdIsDistinct(used);
    RegistersExactly(crypto, OnePerId(used), map[]);
  }

  lemma OnePerIdIsEnough(crypto: Crypto, config: Config, rules: seq<Rule>, used: Config)
    requires CompatibleIds(crypto, config, rules) && Uses(config, rules, used)
    ensures Known(crypto, OnePerId(UsedConfigs(config, rules)), used)
  {
    var all := UsedConfigs(config, rules);
    UsedAreListed(config, rules, used);
    OnePerIdHasAll(all, used);
    var d :| d in OnePerId(all) && d.keyId == used.keyId;
    OnePerIdIsPart(all, d);
    UsedAreListed(config, rules, d);
    assert Compatible(crypto, d, used);
  }

  /**
   What a compiled policy encrypts can be decrypted by some registry exactly when no identifier in use stands for
   two algorithms or two keys; different nonce sizes and tag lengths do no harm.
   */
  lemma ReadableExactly(lib: Library, crypto: Crypto, config: Config, rules: seq<Rule>)
    requires Sound(crypto) && KeyBound(crypto) && Compile(crypto, config, rules).Success?
    requires forall used | Uses(config, rules, used) :: used.keyId != ""
    ensures Readable(lib, crypto, config, rules) <==> CompatibleIds(crypto, config, rules)
  {
    if Readable(lib, crypto, config, rules) {
      var configs :| ReadableWith(lib, crypto, config, rules, configs);
      ReadableNeedsCompatibleIds(lib, crypto, config, rules, configs);
    }
    if CompatibleIds(crypto, config, rules) {
      var configs := OnePerId(UsedConfigs(config, rules));
      OnePerIdRegisters(crypto, config, rules);
      forall used, nonce, text | Uses(config, rules, used)
        ensures Reads(lib, crypto, Register(crypto, configs, map[]).value, used, nonce, text)
      {
        UsedResolves(crypto, config, rules, used);
        OnePerIdIsEnough(crypto, config, rules, used);
        ReadsWhatIsKnown(lib, crypto, configs, used, nonce, text);
      }
      assert ReadableWith(lib, crypto, config, rules, configs);
    }
  }

  /** Rules that change nothing but nonce sizes, tag lengths or identifiers leave a policy readable. */
  lemma SizesAloneStayCompatible(crypto: Crypto, config: Config, rules: seq<Rule>)
    requires forall r | r in rules && r.enabled :: r.algorithm.None? && r.keyB64.None? && r.keyB64Env.None?
    ensures CompatibleIds(crypto, config, rules)
  {
    forall used | Uses(config, rules, used)
      ensures Compatible(crypto, used, config)
    {
    }
  }

  /** A validated policy names every key it uses. */
  lemma ValidKeysAreNamed(crypto: Crypto, config: Config, rules: seq<Rule>, used: Config)
    requires ValidConfig(crypto, config, rules) && Uses(config, rules, used)
    ensures used.keyId != ""
  {
  }

  /** A valid policy that starts and whose messages no single registry decrypts: a rule changes the algorithm alone. */
  lemma SharedIdMayBeUnreadable(lib: Library, crypto: Crypto, key: string)
    requires Sound(crypto) && KeyBound(crypto) && DecodeKey(crypto, key).Some?
    ensures exists config: Config, rules: seq<Rule> ::
      && ValidConfig(crypto, config, rules) && Compile(crypto, config, rules).Success?
      && !Readable(lib, crypto, config, rules)
  {
    var config := Config(true, Gcm, "default", Some(key), None, 12, 16);
    var rule := Rule("orders.*", true, Some(Ccm), None, None, None, None, None);
    var rules := [rule];
    assert ValidConfig(crypto, config, rules);
    ValidatedPolicyCompilesExactly(crypto, config, rules);
    assert Compile(crypto, config, rules).Success?;
    var other := config.(algorithm := Ccm);
    assert rule in rules && EffectiveRuleConfig(config, rule) == Success(other);
    assert Uses(config, rules, config) && Uses(config, rules, other) && !Compatible(crypto, config, other);
    if Readable(lib, crypto, config, rules) {
      var configs :| ReadableWith(lib, crypto, config, rules, configs);
      ReadableNeedsCompatibleIds(lib, crypto, config, rules, configs);
      assert false;
    }
  }

  lemma UsedConfig(crypto: Crypto, config: Config, rules: seq<Rule>, subject: string)
    requires Compile(crypto, config, rules).Success?
    ensures var policy := Compile(crypto, config, rules).value;
      var e := EncryptorFor(policy.rules, policy.fallback, subject);
      e.Some? ==> Uses(config, rules, e.value.config) && NewEncryptor(crypto, e.value.config) == Success(e.value)
  {
    var policy := Compile(crypto, config, rules).value;
    FirstMatchOrFallback(policy.rules, policy.fallback, subject);
    var e := EncryptorFor(policy.rules, policy.fallback, subject);
    if e.Some? && exists k | 0 <= k < |policy.rules| :: policy.rules[k].1 == e {
      var k :| 0 <= k < |policy.rules| && policy.rules[k].1 == e;
      CompiledRule(crypto, config, rules, k);
      assert rules[k] in rules;
    }
  }

  lemma {:induction false} FirstMatchOrFallback(rules: seq<(string, Option<Encryptor>)>, fallback: Option<Encryptor>,
                                                subject: string)
    ensures EncryptorFor(rules, fallback, subject) == fallback
            || exists k | 0 <= k < |rules| :: rules[k].1 == EncryptorFor(rules, fallback, subject)
  {
    if rules != [] && !Subjects.MatchesSubject(rules[0].0, subject) {
      FirstMatchOrFallback(rules[1..], fallback, subject);
      if EncryptorFor(rules, fallback, subject) != fallback {
        var k :| 0 <= k < |rules[1..]| && rules[1..][k].1 == EncryptorFor(rules, fallback, subject);
        assert rules[k + 1].1 == EncryptorFor(rules, fallback, subject);
      }
    }
  }

  /**
   Main result: in a mixed batch every message keeps its place and its metadata; it is untouched if it is not to
   be encrypted, and otherwise it has its own nonce and a registry that knows the keys in use gives its bytes back.
   */
  lemma MixedBatchRoundTrip(lib: Library, crypto: Crypto, config: Config, rules: seq<Rule>, configs: seq<Config>,
                            nonces: seq<Bytes>, batch: seq<Envelope>, i: nat)
    requires Sound(crypto) && |nonces| == |batch| && i < |batch| && Received(lib, batch[i])
    requires Compile(crypto, config, rules).Success? && Register(crypto, configs, map[]).Success?
    requires forall used | Uses(config, rules, used) :: Known(crypto, configs, used) && used.keyId != ""
    ensures var policy, registry := Compile(crypto, config, rules).value, Register(crypto, configs, map[]).value;
      var out := EncryptBatch(lib, crypto, policy, nonces, batch);
      && |out| == |batch|
      && (!Protected(config, rules, batch[i].subject) ==> out[i] == batch[i])
      && (Protected(config, rules, batch[i].subject) ==>
            && out[i] == batch[i].(data := out[i].data)
            && crypto.parse(out[i].data).Some? && crypto.parse(out[i].data).value.nonce == nonces[i]
            && RegistryDecrypt(lib, crypto, registry, out[i].data) == Success(batch[i].data))
  {
    var policy, registry := Compile(crypto, config, rules).value, Register(crypto, configs, map[]).value;
    var encryptor := EncryptorFor(policy.rules, policy.fallback, batch[i].subject);
    ProtectedExactly(crypto, config, rules, batch[i].subject);
    if encryptor.Some? {
      var e := encryptor.value;
      UsedConfig(crypto, config, rules, batch[i].subject);
      KnownIsOpened(crypto, configs, e.config);
      DecryptInverts(lib, crypto, e, registry, nonces[i], batch[i].data);
      EncryptedCarries(lib, crypto, e, nonces[i], batch[i].data);
      var raw, headers :| batch[i] == Construct(lib, raw, headers);
      EnvelopeProofs.ReplaceKeepsTheRest(lib, raw, headers, EncryptBytes(lib, crypto, e, nonces[i], batch[i].data));
    }
  }
}
