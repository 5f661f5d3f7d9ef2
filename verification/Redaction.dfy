/** JSON configuration trees. */
module JsonTree {

  datatype Json =
    | Null
    | Bool(b: bool)
    | Number(n: real)
    | Str(s: string)
    | List(items: seq<Json>)
    | Obj(fields: map<string, Json>)
}

/** redact_mapping and _redact_value (src/nats_sinks/core/config.py). */
module Redaction {
  import opened JsonTree
  import opened Text

  const MASK := Str("********")

  const SENSITIVE_KEY_PARTS := ["password", "token", "secret", "private_key", "credentials", "creds", "cert_file",
                                "key_file", "nkey_seed", "key_b64", "key_material"]

  predicate HasSensitivePart(key: string) {
    exists part | part in SENSITIVE_KEY_PARTS :: Contains(key, part)
  }

  predicate IsHeaderTable(key: string) {
    key == "websocket_headers" || key == "websocket_headers_env"
  }

  predicate CarriesUserInfo(value: Json) {
    value.Str? && '@' in value.s
  }

  /** _redact_value; lower is Python's str.lower. */
  function RedactValue(lower: string -> string, key: string, value: Json): Json {
    if value.Null? then Null
    else if IsHeaderTable(lower(key)) && value.Obj? then Obj(map name | name in value.fields :: MASK)
    else if HasSensitivePart(lower(key)) then MASK
    else if (lower(key) == "dsn" || lower(key) == "url") && CarriesUserInfo(value) then MASK
    else value
  }

  /** How the value of a key is treated, in the order in which the rules apply. */
  datatype Treatment = SinkTable | Verbatim | HeaderTable | Secret | Address | Ordinary

  function TreatmentOf(lower: string -> string, key: string, value: Json): Treatment {
    if key == "sinks" && value.Obj? then SinkTable
    else if key == "target_sink_types" && value.Obj? then Verbatim
    else if IsHeaderTable(lower(key)) && value.Obj? then HeaderTable
    else if HasSensitivePart(lower(key)) then Secret
    else if lower(key) == "dsn" || lower(key) == "url" then Address
    else Ordinary
  }

  /** redact_mapping. */
  function Redact(lower: string -> string, value: Json): Json
    decreases value, 0
  {
    match value
    case Obj(fields) => Obj(map key | key in fields :: RedactField(lower, key, fields[key]))
    case List(items) => List(seq(|items|, i requires 0 <= i < |items| => Redact(lower, items[i])))
    case _ => value
  }

  /** One entry of an object; a masked value needs no further pass, see FieldIsAsWritten. */
  function RedactField(lower: string -> string, key: string, value: Json): Json
    decreases value, 1
  {
    if value.Null? then Null
    else
      match TreatmentOf(lower, key, value)
      case SinkTable => Obj(map name | name in value.fields :: Redact(lower, value.fields[name]))
      case Verbatim => value
      case HeaderTable => Obj(map name | name in value.fields :: MASK)
      case Secret => MASK
      case Address => if CarriesUserInfo(value) then MASK else Redact(lower, value)
      case Ordinary => Redact(lower, value)
  }

  /** The entry as the code computes it: the value is masked first, and the result redacted in turn. */
  lemma FieldIsAsWritten(lower: string -> string, key: string, value: Json)
    ensures RedactField(lower, key, value) ==
            if key == "sinks" && value.Obj? then
                Obj(map name | name in value.fields :: Redact(lower, value.fields[name]))
            else if key == "target_sink_types" && value.Obj? then value
            else Redact(lower, RedactValue(lower, key, value))
  {
    if TreatmentOf(lower, key, value).HeaderTable? {
      var masked := RedactValue(lower, key, value);
      assert forall name | name in masked.fields :: RedactField(lower, name, masked.fields[name]) == MASK;
      assert Redact(lower, masked).fields == masked.fields;
    }
  }

  // ---------------------------------------------------------------- what redaction depends on

  predicate Hidden(value: Json) {
    CarriesUserInfo(value) || value == MASK
  }

  /** The trees agree on everything that is not a secret. */
  predicate SamePublic(lower: string -> string, a: Json, b: Json)
    decreases a, 0
  {
    match a
    case Obj(fields) =>
      b.Obj? && fields.Keys == b.fields.Keys && forall key | key in fields ::
          SameField(lower, key, fields[key], b.fields[key])
    case List(items) =>
      b.List? && |items| == |b.items| && forall i | 0 <= i < |items| :: SamePublic(lower, items[i], b.items[i])
    case _ => a == b
  }

  predicate SameField(lower: string -> string, key: string, x: Json, y: Json)
    decreases x, 1
  {
    if x.Null? || y.Null? then x == y
    else
      && TreatmentOf(lower, key, x) == TreatmentOf(lower, key, y)
      && match TreatmentOf(lower, key, x)
         case SinkTable => x.fields.Keys == y.fields.Keys && forall name | name in x.fields ::
             SamePublic(lower, x.fields[name], y.fields[name])
         case Verbatim => x == y
         case HeaderTable => x.fields.Keys == y.fields.Keys
         case Secret => true
         case Address => (Hidden(x) && Hidden(y)) || SamePublic(lower, x, y)
         case Ordinary => SamePublic(lower, x, y)
  }

  /** Main result: two trees redact alike exactly when they agree on everything public. */
  lemma {:induction false} RedactionShowsExactlyThePublic(lower: string -> string, a: Json, b: Json)
    ensures Redact(lower, a) == Redact(lower, b) <==> SamePublic(lower, a, b)
    decreases a, 0
  {
    if a.Obj? && b.Obj? && a.fields.Keys == b.fields.Keys {
      var ra, rb := Redact(lower, a).fields, Redact(lower, b).fields;
      forall key | key in a.fields
        ensures ra[key] == rb[key] <==> SameField(lower, key, a.fields[key], b.fields[key])
      {
        FieldShowsExactlyThePublic(lower, key, a.fields[key], b.fields[key]);
      }
      assert ra.Keys == rb.Keys;
      assert ra == rb <==> forall key | key in a.fields :: ra[key] == rb[key];
    } else if a.Obj? && b.Obj? {
      assert Redact(lower, a).fields.Keys == a.fields.Keys && Redact(lower, b).fields.Keys == b.fields.Keys;
    } else if a.List? && b.List? && |a.items| == |b.items| {
      var ra, rb := Redact(lower, a).items, Redact(lower, b).items;
      forall i | 0 <= i < |a.items|
        ensures ra[i] == rb[i] <==> SamePublic(lower, a.items[i], b.items[i])
      {
        RedactionShowsExactlyThePublic(lower, a.items[i], b.items[i]);
      }
      assert ra == rb <==> forall i | 0 <= i < |a.items| :: ra[i] == rb[i];
    } else if a.List? && b.List? {
      assert |Redact(lower, a).items| == |a.items| && |Redact(lower, b).items| == |b.items|;
    }
  }

  lemma {:induction false} FieldShowsExactlyThePublic(lower: string -> string, key: string, x: Json, y: Json)
    ensures RedactField(lower, key, x) == RedactField(lower, key, y) <==> SameField(lower, key, x, y)
    decreases x, 1
  {
    var tx, ty := TreatmentOf(lower, key, x), TreatmentOf(lower, key, y);
    RedactionShowsExactlyThePublic(lower, x, y);
    if !x.Null? && !y.Null? && tx == ty && tx.SinkTable? {
      SinkTableShowsItsSinks(lower, key, x, y);
    } else if !x.Null? && !y.Null? && tx == ty && tx.HeaderTable? {
      var ra, rb := RedactField(lower, key, x).fields, RedactField(lower, key, y).fields;
      assert ra.Keys == x.fields.Keys && rb.Keys == y.fields.Keys;
    }
  }

  lemma {:induction false} SinkTableShowsItsSinks(lower: string -> string, key: string, x: Json, y: Json)
    requires !x.Null? && !y.Null? && TreatmentOf(lower, key, x).SinkTable? && TreatmentOf(lower, key, y).SinkTable?
    ensures RedactField(lower, key, x) == RedactField(lower, key, y) <==>
            x.fields.Keys == y.fields.Keys && forall name | name in x.fields ::
                SamePublic(lower, x.fields[name], y.fields[name])
    decreases x, 0
  {
    var ra, rb := RedactField(lower, key, x).fields, RedactField(lower, key, y).fields;
    assert ra.Keys == x.fields.Keys && rb.Keys == y.fields.Keys;
    if x.fields.Keys == y.fields.Keys {
      forall name | name in x.fields
        ensures ra[name] == rb[name] <==> SamePublic(lower, x.fields[name], y.fields[name])
      {
        RedactionShowsExactlyThePublic(lower, x.fields[name], y.fields[name]);
      }
      assert ra == rb <==> forall name | name in x.fields :: ra[name] == rb[name];
    }
  }

  /** A redacted tree agrees with the original on everything public. */
  lemma {:induction false} RedactedIsSamePublic(lower: string -> string, a: Json)
    ensures SamePublic(lower, Redact(lower, a), a)
    decreases a, 0
  {
    match a
    case Obj(fields) =>
      forall key | key in fields
        ensures SameField(lower, key, RedactField(lower, key, fields[key]), fields[key])
      {
        RedactedFieldIsSamePublic(lower, key, fields[key]);
      }
    case List(items) =>
      forall i | 0 <= i < |items|
        ensures SamePublic(lower, Redact(lower, items[i]), items[i])
      {
        RedactedIsSamePublic(lower, items[i]);
      }
    case _ =>
  }

  lemma {:induction false} RedactedFieldIsSamePublic(lower: string -> string, key: string, x: Json)
    ensures SameField(lower, key, RedactField(lower, key, x), x)
    decreases x, 1
  {
    RedactedIsSamePublic(lower, x);
    if TreatmentOf(lower, key, x).SinkTable? {
      forall name | name in x.fields
        ensures SamePublic(lower, Redact(lower, x.fields[name]), x.fields[name])
      {
        RedactedIsSamePublic(lower, x.fields[name]);
      }
    }
  }

  /** Redaction is idempotent. */
  lemma RedactTwice(lower: string -> string, a: Json)
    ensures Redact(lower, Redact(lower, a)) == Redact(lower, a)
  {
    RedactedIsSamePublic(lower, a);
    RedactionShowsExactlyThePublic(lower, Redact(lower, a), a);
  }

  // ---------------------------------------------------------------- which keys are secret

  /** The key contains one of the words that stand for secrets. */
  ghost predicate NamesSecret(key: string) {
    exists before: string, word: string, after: string :: key == before + word + after && IsSecretWord(word)
  }

  predicate IsSecretWord(word: string) {
    || word == "password" || word == "token" || word == "secret" || word == "private_key" || word == "credentials"
    || word == "creds" || word == "cert_file" || word == "key_file" || word == "nkey_seed" || word == "key_b64"
    || word == "key_material"
  }

  lemma {:induction false} ContainedSomewhere(s: string, part: string) returns (before: string, after: string)
    requires Contains(s, part)
    ensures s == before + part + after
  {
    if StartsWith(s, part) {
      before, after := "", s[|part|..];
    } else {
      before, after := ContainedSomewhere(s[1..], part);
      before := [s[0]] + before;
    }
  }

  lemma {:induction false} SomewhereIsContained(before: string, part: string, after: string)
    ensures Contains(before + part + after, part)
  {
    var s := before + part + after;
    if before == "" {
      assert s[..|part|] == part;
    } else {
      assert s[1..] == before[1..] + part + after;
      SomewhereIsContained(before[1..], part, after);
    }
  }

  lemma SecretExactly(key: string)
    ensures HasSensitivePart(key) <==> NamesSecret(key)
  {
    forall word
      ensures word in SENSITIVE_KEY_PARTS <==> IsSecretWord(word)
    {
    }
    if HasSensitivePart(key) {
      var part :| part in SENSITIVE_KEY_PARTS && Contains(key, part);
      var before, after := ContainedSomewhere(key, part);
    }
    if NamesSecret(key) {
      var before: string, word: string, after: string :| key == before + word + after && IsSecretWord(word);
      SomewhereIsContained(before, word, after);
    }
  }

  /** The tables whose values are treated as a whole. */
  predicate Structural(lower: string -> string, key: string, value: Json) {
    value.Obj? && (key == "sinks" || key == "target_sink_types" || HoldsHeaders(lower, key))
  }

  predicate HoldsHeaders(lower: string -> string, key: string) {
    lower(key) == "websocket_headers" || lower(key) == "websocket_headers_env"
  }

  predicate IsAddress(lower: string -> string, key: string) {
    lower(key) == "dsn" || lower(key) == "url"
  }

  /** Anything but an object or a list. */
  predicate Scalar(value: Json) {
    value.Null? || value.Bool? || value.Number? || value.Str?
  }

  /** Lists are redacted item by item, and scalars on their own are shown. */
  lemma ItemsShowExactly(lower: string -> string, value: Json)
    ensures Scalar(value) ==> Redact(lower, value) == value
    ensures value.List? ==>
      var shown := Redact(lower, value);
      && shown.List? && |shown.items| == |value.items|
      && forall i | 0 <= i < |value.items| :: shown.items[i] == Redact(lower, value.items[i])
  {
  }

  /**
   Main result on entries: what redaction shows of each one.  Under a key that names a secret nothing is shown,
   and an address with an "@" is not; header tables show their names, the type table all, and null stays null.
   Everything else is shown: scalars as they are, and objects and lists entry by entry.
   */
  lemma EntriesShowExactly(lower: string -> string, fields: map<string, Json>, key: string)
    requires key in fields
    ensures Redact(lower, Obj(fields)).Obj? && Redact(lower, Obj(fields)).fields.Keys == fields.Keys
    ensures var value, shown := fields[key], Redact(lower, Obj(fields)).fields[key];
      && (value.Null? ==> shown == Null)
      && (!value.Null? && !Structural(lower, key, value) && NamesSecret(lower(key)) ==> shown == Str("********"))
      && (value.Str? && '@' in value.s && IsAddress(lower, key) ==> shown == Str("********"))
      && (Structural(lower, key, value) ==>
            if key == "target_sink_types" then shown == value
            else
              && shown.Obj? && shown.fields.Keys == value.fields.Keys
              && forall name | name in value.fields ::
                   shown.fields[name] == if key == "sinks" then Redact(lower, value.fields[name]) else Str("********"))
      && (!NamesSecret(lower(key)) && !Structural(lower, key, value)
          && !(IsAddress(lower, key) && value.Str? && '@' in value.s) ==>
            shown == if Scalar(value) then value else Redact(lower, value))
  {
    SecretExactly(lower(key));
    ItemsShowExactly(lower, fields[key]);
  }

  /** A secret, whatever it is, leaves no trace: any non-null value in its place redacts to the same tree. */
  lemma SecretsLeaveNoTrace(lower: string -> string, fields: map<string, Json>, key: string, other: Json)
    requires key in fields && !fields[key].Null? && !other.Null? && NamesSecret(lower(key))
    requires !Structural(lower, key, fields[key]) && !Structural(lower, key, other)
    ensures Redact(lower, Obj(fields[key := other])) == Redact(lower, Obj(fields))
  {
    SecretExactly(lower(key));
    forall k | k in fields
      ensures SameField(lower, k, fields[key := other][k], fields[k])
    {
      FieldShowsExactlyThePublic(lower, k, fields[k], fields[k]);
    }
    RedactionShowsExactlyThePublic(lower, Obj(fields[key := other]), Obj(fields));
  }
}
