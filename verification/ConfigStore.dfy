/**
 * Persistence of an installation's configuration (src/config/config-store.ts): sensitive fields are
 * stored one by one as sealed entries, the others together in one plain entry. Opening a sealed entry
 * is taken as the exact inverse of sealing, so an entry is known by the text a read of it gives.
 */
module ConfigStore {
  import opened Wrappers

  /** How a finite number is written. */
  type NumberText = s: string | s != "" witness "0"

  /** A configuration value. */
  datatype Json =
    | Null
    | Bool(b: bool)
    | Number(text: NumberText)
    | Str(s: string)
    | Array(items: seq<Json>)
    | Object(members: map<string, Json>)

  type Configs = map<string, Json>

  datatype Field = Field(key: string, sensitive: bool)

  /** The three places a schema may declare fields; an absent one is empty. */
  datatype Schema = Schema(steps: seq<seq<Field>>, fields: seq<Field>, groups: seq<seq<Field>>)

  /** A stored entry: the text a read of it gives, and whether it is sealed at rest. */
  datatype Entry = Entry(text: string, isSealed: bool)

  /** JSON.stringify and JSON.parse; the latter throws on a text that is not a JSON object. */
  datatype Codec = Codec(render: Configs -> string, parse: string -> Option<Configs>) {
    /** What is rendered is parsed back, and is never the empty text. */
    ghost predicate Valid() {
      forall configs :: render(configs) != "" && parse(render(configs)) == Some(configs)
    }
  }

  const PLAIN_KEY := "cfg"
  const SECRET_PREFIX := "cfgsec:"

  function SecretKey(k: string): (name: string)
    ensures |name| == 7 + |k| && name[..7] == SECRET_PREFIX && name[7..] == k
  {
    SECRET_PREFIX + k
  }

  predicate IsSecretKey(name: string, keys: set<string>) {
    |name| >= 7 && name[..7] == SECRET_PREFIX && name[7..] in keys
  }

  predicate IsEmpty(v: Json) {
    v == Null || v == Str("")
  }

  /** `String(v)`: an array is its items joined by commas, null among them left out. */
  function Text(v: Json): string {
    match v
    case Null => "null"
    case Bool(b) => if b then "true" else "false"
    case Number(text) => text
    case Str(s) => s
    case Array(items) => Joined(items)
    case Object(_) => "[object Object]"
  }

  function Joined(items: seq<Json>): string {
    if items == [] then ""
    else
      var head := if items[0] == Null then "" else Text(items[0]);
      if |items| == 1 then head else head + "," + Joined(items[1..])
  }

  /** The values that have no text although they are not empty: arrays of nothing, or of one such thing. */
  lemma NoTextExactly(v: Json)
    ensures !IsEmpty(v) && Text(v) == "" <==>
            v.Array? && (v.items == [] || (|v.items| == 1 && (v.items[0] == Null || Text(v.items[0]) == "")))
  {
  }

  // ---- The schema --------------------------------------------------------------------------------

  function Concat(parts: seq<seq<Field>>): seq<Field> {
    if parts == [] then [] else Concat(parts[..|parts| - 1]) + parts[|parts| - 1]
  }

  method CollectFields(schema: Schema) returns (out: seq<Field>)
    ensures out == Concat(schema.steps) + schema.fields + Concat(schema.groups)
  {
    out := [];
    for i := 0 to |schema.steps|
      invariant out == Concat(schema.steps[..i])
    {
      assert schema.steps[..i + 1][..i] == schema.steps[..i];
      out := out + schema.steps[i];
    }
    assert schema.steps[..|schema.steps|] == schema.steps;
    out := out + schema.fields;
    ghost var before := out;
    for i := 0 to |schema.groups|
      invariant out == before + Concat(schema.groups[..i])
    {
      assert schema.groups[..i + 1][..i] == schema.groups[..i];
      out := out + schema.groups[i];
    }
    assert schema.groups[..|schema.groups|] == schema.groups;
  }

  function SensitiveOf(fields: seq<Field>): set<string> {
    set i | 0 <= i < |fields| && fields[i].sensitive :: fields[i].key
  }

  /** A key is sensitive if any of its declarations says so. */
  function SensitiveKeys(schema: Schema): set<string> {
    SensitiveOf(Concat(schema.steps) + schema.fields + Concat(schema.groups))
  }

  // ---- Saving and loading --------------------------------------------------------------------------

  type Entries = map<string, Entry>

  function Get(entries: Entries, name: string): Option<Entry> {
    if name in entries then Some(entries[name]) else None
  }

  /** The non-sensitive part of a configuration. */
  function PlainPart(configs: Configs, secret: set<string>): Configs {
    map k | k in configs && k !in secret :: configs[k]
  }

  /** What a sensitive key's own entry holds: a non-empty value as text, or nothing. */
  function SecretEntry(configs: Configs, k: string): Option<Entry> {
    if k in configs && !IsEmpty(configs[k]) then Some(Entry(Text(configs[k]), true)) else None
  }

  /** The entry under a name once the configuration is saved over an earlier state. */
  function SavedEntry(
      codec: Codec, before: Entries, secret: set<string>, configs: Configs, name: string): Option<Entry>
  {
    if name == PLAIN_KEY then Some(Entry(codec.render(PlainPart(configs, secret)), false))
    else if IsSecretKey(name, secret) then SecretEntry(configs, name[7..])
    else Get(before, name)
  }

  ghost predicate IsSaved(codec: Codec, before: Entries, after: Entries, secret: set<string>, configs: Configs) {
    forall name :: Get(after, name) == SavedEntry(codec, before, secret, configs, name)
  }

  /** The plain part as it is read: nothing if there is no text, and no result if it cannot be parsed. */
  function PlainRead(codec: Codec, entries: Entries): Option<Configs> {
    if PLAIN_KEY !in entries || entries[PLAIN_KEY].text == "" then Some(map[])
    else codec.parse(entries[PLAIN_KEY].text)
  }

  /** What loading yields: the plain part with every stored secret of the schema over it, or a parse error. */
  function Loaded(codec: Codec, entries: Entries, secret: set<string>): Option<Configs> {
    match PlainRead(codec, entries)
    case None => None
    case Some(plain) => Some(WithSecrets(plain, entries, secret))
  }

  /** A plain configuration with the stored secrets of the given keys put over it. */
  function WithSecrets(plain: Configs, entries: Entries, keys: set<string>): Configs {
    plain + map k | k in keys && SecretKey(k) in entries :: Str(entries[SecretKey(k)].text)
  }

  lemma SecretAt(plain: Configs, entries: Entries, keys: set<string>, x: string)
    ensures x in WithSecrets(plain, entries, keys) <==> x in plain || (x in keys && SecretKey(x) in entries)
    ensures x in WithSecrets(plain, entries, keys) ==>
              WithSecrets(plain, entries, keys)[x] ==
              if x in keys && SecretKey(x) in entries then Str(entries[SecretKey(x)].text) else plain[x]
  {
  }

  lemma OneMoreSecret(plain: Configs, entries: Entries, keys: set<string>, k: string)
    ensures WithSecrets(plain, entries, keys + {k}) ==
            if SecretKey(k) in entries
            then WithSecrets(plain, entries, keys)[k := Str(entries[SecretKey(k)].text)]
            else WithSecrets(plain, entries, keys)
  {
    var less, more := WithSecrets(plain, entries, keys), WithSecrets(plain, entries, keys + {k});
    var with := if SecretKey(k) in entries then less[k := Str(entries[SecretKey(k)].text)] else less;
    forall x ensures (x in more <==> x in with) && (x in more ==> more[x] == with[x]) {
      SecretAt(plain, entries, keys, x);
      SecretAt(plain, entries, keys + {k}, x);
    }
  }

  class StateRepo {
    const codec: Codec
    var entries: Entries

    constructor (codec: Codec, entries: Entries)
      ensures this.codec == codec && this.entries == entries
    {
      this.codec, this.entries := codec, entries;
    }

    /** `saveConfigs`; the loops may visit their keys in any order. */
    method SaveConfigs(schema: Schema, configs: Configs)
      modifies this
      ensures IsSaved(codec, old(entries), entries, SensitiveKeys(schema), configs)
    {
      var fields := CollectFields(schema);
      var secret := SensitiveOf(fields);
      var plain: Configs := map[];
      var rest := configs.Keys;
      while rest != {}
        invariant rest <= configs.Keys
        invariant plain == map k | k in configs && k !in rest && k !in secret :: configs[k]
        invariant forall name :: Get(entries, name) ==
                    if IsSecretKey(name, secret) && name[7..] in configs && name[7..] !in rest
                    then SecretEntry(configs, name[7..]) else Get(old(entries), name)
        decreases |rest|
      {
        var k :| k in rest;
        rest := rest - {k};
        var v := configs[k];
        if k in secret {
          OnlySecretKey(k, secret);
          if !IsEmpty(v) {
            entries := entries[SecretKey(k) := Entry(Text(v), true)];
          } else {
            entries := entries - {SecretKey(k)};
          }
        } else {
          plain := plain[k := v];
        }
      }
      EraseAbsent(secret, configs, old(entries));
      assert plain == PlainPart(configs, secret);
      assert !IsSecretKey(PLAIN_KEY, secret);
      entries := entries[PLAIN_KEY := Entry(codec.render(plain), false)];
    }

    /** The loop that erases the secrets of keys the configuration does not hold. */
    method EraseAbsent(secret: set<string>, configs: Configs, ghost before: Entries)
      requires forall name :: Get(entries, name) ==
                 if IsSecretKey(name, secret) && name[7..] in configs then SecretEntry(configs, name[7..])
                 else Get(before, name)
      modifies this
      ensures forall name :: Get(entries, name) ==
                if IsSecretKey(name, secret) then SecretEntry(configs, name[7..]) else Get(before, name)
    {
      var stale := secret;
      while stale != {}
        invariant stale <= secret
        invariant forall name :: Get(entries, name) ==
                    if IsSecretKey(name, secret) && (name[7..] in configs || name[7..] !in stale)
                    then SecretEntry(configs, name[7..]) else Get(before, name)
        decreases |stale|
      {
        var k :| k in stale;
        stale := stale - {k};
        OnlySecretKey(k, secret);
        if k !in configs {
          entries := entries - {SecretKey(k)};
        }
      }
    }

    /** `loadConfigs`; no result stands for the error that parsing throws. */
    method LoadConfigs(schema: Schema) returns (configs: Option<Configs>)
      ensures configs == Loaded(codec, entries, SensitiveKeys(schema))
    {
      var plain: Option<Configs> := Some(map[]);
      if PLAIN_KEY in entries && entries[PLAIN_KEY].text != "" {
        plain := codec.parse(entries[PLAIN_KEY].text);
      }
      if plain.None? {
        return None;
      }
      var fields := CollectFields(schema);
      var all := ReadSecrets(plain.value, SensitiveOf(fields));
      return Some(all);
    }

    /** The loop over the sensitive keys, in any order. */
    method ReadSecrets(plain: Configs, secret: set<string>) returns (configs: Configs)
      ensures configs == WithSecrets(plain, entries, secret)
    {
      configs := plain;
      var rest := secret;
      assert secret - rest == {};
      while rest != {}
        invariant rest <= secret
        invariant configs == WithSecrets(plain, entries, secret - rest)
        decreases |rest|
      {
        var k :| k in rest;
        OneMoreSecret(plain, entries, secret - rest, k);
        assert secret - (rest - {k}) == secret - rest + {k};
        rest := rest - {k};
        if SecretKey(k) in entries {
          configs := configs[k := Str(entries[SecretKey(k)].text)];
        }
      }
      assert secret - rest == secret;
    }
  }

  /** A name is the secret entry of one key only. */
  lemma OnlySecretKey(k: string, secret: set<string>)
    requires k in secret
    ensures IsSecretKey(SecretKey(k), secret)
    ensures forall name :: IsSecretKey(name, secret) && name[7..] == k ==> name == SecretKey(k)
  {
    forall name | IsSecretKey(name, secret) && name[7..] == k ensures name == SecretKey(k) {
      assert name == name[..7] + name[7..];
    }
  }

  // ---- Round trips ---------------------------------------------------------------------------------

  /** The saved configuration with sensitive values as text and empty sensitive values absent. */
  function Expected(configs: Configs, secret: set<string>): Configs {
    map k | k in configs && !(k in secret && IsEmpty(configs[k])) ::
      if k in secret then Str(Text(configs[k])) else configs[k]
  }

  /** The secret entries after a save, key by key. */
  lemma SecretsAfterSave(
      codec: Codec, before: Entries, after: Entries, secret: set<string>, configs: Configs, k: string)
    requires IsSaved(codec, before, after, secret, configs) && k in secret
    ensures Get(after, SecretKey(k)) == SecretEntry(configs, k)
  {
    OnlySecretKey(k, secret);
    assert Get(after, SecretKey(k)) == SavedEntry(codec, before, secret, configs, SecretKey(k));
  }

  lemma PlainAfterSave(codec: Codec, before: Entries, after: Entries, secret: set<string>, configs: Configs)
    requires codec.Valid() && IsSaved(codec, before, after, secret, configs)
    ensures PLAIN_KEY in after && after[PLAIN_KEY] == Entry(codec.render(PlainPart(configs, secret)), false)
    ensures PlainRead(codec, after) == Some(PlainPart(configs, secret))
  {
    assert Get(after, PLAIN_KEY) == SavedEntry(codec, before, secret, configs, PLAIN_KEY);
  }

  /** From any earlier state, loading after saving returns what was saved. */
  lemma LoadAfterSave(codec: Codec, before: Entries, after: Entries, secret: set<string>, configs: Configs)
    requires codec.Valid() && IsSaved(codec, before, after, secret, configs)
    ensures Loaded(codec, after, secret) == Some(Expected(configs, secret))
  {
    PlainAfterSave(codec, before, after, secret, configs);
    forall k | k in secret ensures Get(after, SecretKey(k)) == SecretEntry(configs, k) {
      SecretsAfterSave(codec, before, after, secret, configs, k);
    }
    SecretsOverPlain(after, secret, configs);
  }

  lemma SecretsOverPlain(after: Entries, secret: set<string>, configs: Configs)
    requires forall k :: k in secret ==> Get(after, SecretKey(k)) == SecretEntry(configs, k)
    ensures WithSecrets(PlainPart(configs, secret), after, secret) == Expected(configs, secret)
  {
    var loaded, expected := WithSecrets(PlainPart(configs, secret), after, secret), Expected(configs, secret);
    forall k ensures k in loaded <==> k in expected {
      assert k in secret ==> Get(after, SecretKey(k)) == SecretEntry(configs, k);
    }
    forall k | k in loaded ensures loaded[k] == expected[k] {
      assert k in secret ==> Get(after, SecretKey(k)) == SecretEntry(configs, k);
    }
  }

  /** The plain entry never holds a sensitive key, and no secret of the schema outlives its value. */
  lemma NoSecretInPlainAndNoneStale(
      codec: Codec, before: Entries, after: Entries, secret: set<string>, configs: Configs)
    requires codec.Valid() && IsSaved(codec, before, after, secret, configs)
    ensures PlainRead(codec, after).Some?
    ensures forall k :: k in PlainRead(codec, after).value ==> k in configs && k !in secret
    ensures forall k :: k in secret && SecretKey(k) in after ==>
              k in configs && !IsEmpty(configs[k]) && after[SecretKey(k)] == Entry(Text(configs[k]), true)
  {
    PlainAfterSave(codec, before, after, secret, configs);
    forall k | k in secret && SecretKey(k) in after
      ensures k in configs && !IsEmpty(configs[k]) && after[SecretKey(k)] == Entry(Text(configs[k]), true)
    {
      SecretsAfterSave(codec, before, after, secret, configs, k);
    }
  }

  /** A sensitive value whose text is empty although the value is not, such as an empty list. */
  predicate HasHollowSecret(configs: Configs, secret: set<string>) {
    exists k :: k in configs && k in secret && !IsEmpty(configs[k]) && Text(configs[k]) == ""
  }

  /**
   * Saving what was loaded changes nothing, exactly when no sensitive value is hollow: a hollow one
   * is stored as an empty secret, loads as an empty string, and is erased by the next save.
   */
  lemma ResavingIsSilentExactlyWhenNotHollow(
      codec: Codec, before: Entries, after: Entries, again: Entries, secret: set<string>, configs: Configs)
    requires codec.Valid() && IsSaved(codec, before, after, secret, configs)
    requires Loaded(codec, after, secret).Some?
    requires IsSaved(codec, after, again, secret, Loaded(codec, after, secret).value)
    ensures again == after <==> !HasHollowSecret(configs, secret)
  {
    LoadAfterSave(codec, before, after, secret, configs);
    forall name ensures ResavedAlike(after, again, secret, configs, name) {
      ResavedEntry(codec, before, after, again, secret, configs, name);
    }
    if HasHollowSecret(configs, secret) {
      var k :| k in configs && k in secret && !IsEmpty(configs[k]) && Text(configs[k]) == "";
      OnlySecretKey(k, secret);
      assert ResavedAlike(after, again, secret, configs, SecretKey(k));
    } else {
      forall name ensures Get(again, name) == Get(after, name) {
        assert ResavedAlike(after, again, secret, configs, name);
        if IsSecretKey(name, secret) && name[7..] in configs {
          assert IsEmpty(configs[name[7..]]) || Text(configs[name[7..]]) != "";
        }
      }
      SameEntries(again, after);
    }
  }

  /** A second save finds a secret by what the first made of it, and leaves every other entry. */
  ghost predicate ResavedAlike(after: Entries, again: Entries, secret: set<string>, configs: Configs, name: string) {
    if IsSecretKey(name, secret) then
      && Get(after, name) == SecretEntry(configs, name[7..])
      && Get(again, name) == SecretEntry(Expected(configs, secret), name[7..])
    else Get(again, name) == Get(after, name)
  }

  lemma ResavedEntry(
      codec: Codec, before: Entries, after: Entries, again: Entries, secret: set<string>, configs: Configs,
      name: string)
    requires IsSaved(codec, before, after, secret, configs)
    requires IsSaved(codec, after, again, secret, Expected(configs, secret))
    ensures ResavedAlike(after, again, secret, configs, name)
  {
    assert Get(again, name) == SavedEntry(codec, after, secret, Expected(configs, secret), name);
    assert Get(after, name) == SavedEntry(codec, before, secret, configs, name);
    assert PlainPart(Expected(configs, secret), secret) == PlainPart(configs, secret);
    assert IsSecretKey(name, secret) ==> name != PLAIN_KEY;
  }

  lemma SameEntries(a: Entries, b: Entries)
    requires forall name :: Get(a, name) == Get(b, name)
    ensures a == b
  {
    forall name ensures name in a <==> name in b {
      assert Get(a, name) == Get(b, name);
    }
    forall name | name in a ensures a[name] == b[name] {
      assert Get(a, name) == Get(b, name);
    }
  }

  // ---- What a schema protects ----------------------------------------------------------------------

  /** Some step, the schema itself or some group declares the field. */
  ghost predicate Declares(schema: Schema, field: Field) {
    || (exists i, j :: 0 <= i < |schema.steps| && 0 <= j < |schema.steps[i]| && schema.steps[i][j] == field)
    || (exists j :: 0 <= j < |schema.fields| && schema.fields[j] == field)
    || (exists i, j :: 0 <= i < |schema.groups| && 0 <= j < |schema.groups[i]| && schema.groups[i][j] == field)
  }

  lemma {:induction false} ConcatMembers(parts: seq<seq<Field>>, field: Field)
    ensures field in Concat(parts) <==>
            exists i, j :: 0 <= i < |parts| && 0 <= j < |parts[i]| && parts[i][j] == field
  {
    if parts != [] {
      var n := |parts| - 1;
      ConcatMembers(parts[..n], field);
      if field in parts[n] {
        var j :| 0 <= j < |parts[n]| && parts[n][j] == field;
        assert parts[n][j] == field;
      }
      if i, j :| 0 <= i < n && 0 <= j < |parts[..n][i]| && parts[..n][i][j] == field {
        assert parts[i][j] == field;
      }
      if i, j :| 0 <= i < n && 0 <= j < |parts[i]| && parts[i][j] == field {
        assert parts[..n][i][j] == field;
      }
    }
  }

  lemma SensitiveExactly(schema: Schema, k: string)
    ensures k in SensitiveKeys(schema) <==> Declares(schema, Field(k, true))
  {
    var field, all := Field(k, true), Concat(schema.steps) + schema.fields + Concat(schema.groups);
    ConcatMembers(schema.steps, field);
    ConcatMembers(schema.groups, field);
    assert field in all <==> field in Concat(schema.steps) || field in schema.fields || field in Concat(schema.groups);
    if field in all {
      var i :| 0 <= i < |all| && all[i] == field;
      assert all[i].sensitive && all[i].key == k;
    }
    if k in SensitiveKeys(schema) {
      var i :| 0 <= i < |all| && all[i].sensitive && all[i].key == k;
      assert all[i] == field;
    }
  }

  /**
   * Whatever was stored before, after a save a key that any declaration of the schema marks sensitive is
   * not in the plain entry; its value, unless empty, is in a sealed entry of its own, and otherwise there
   * is none. A key that no declaration marks is in the plain entry as it is, and its own entry untouched.
   */
  lemma SensitiveIsSealedOthersPlain(
      codec: Codec, schema: Schema, before: Entries, after: Entries, configs: Configs, k: string)
    requires codec.Valid() && IsSaved(codec, before, after, SensitiveKeys(schema), configs)
    ensures "cfg" in after && !after["cfg"].isSealed && codec.parse(after["cfg"].text).Some?
    ensures var plain := codec.parse(after["cfg"].text).value;
            if Declares(schema, Field(k, true)) then
              && k !in plain
              && Get(after, "cfgsec:" + k) ==
                 if k in configs && configs[k] != Null && configs[k] != Str("") then Some(Entry(Text(configs[k]), true))
                 else None
            else
              && (k in plain <==> k in configs) && (k in configs ==> plain[k] == configs[k])
              && Get(after, "cfgsec:" + k) == Get(before, "cfgsec:" + k)
  {
    var secret := SensitiveKeys(schema);
    SensitiveExactly(schema, k);
    PlainAfterSave(codec, before, after, secret, configs);
    assert SecretKey(k) == "cfgsec:" + k;
    if k in secret {
      SecretsAfterSave(codec, before, after, secret, configs, k);
    } else {
      assert !IsSecretKey(SecretKey(k), secret);
      assert Get(after, SecretKey(k)) == SavedEntry(codec, before, secret, configs, SecretKey(k));
    }
  }

  // ---- The text of a value -------------------------------------------------------------------------

  /** Texts stand for themselves, an array for its items between commas, with nothing for null. */
  lemma TextOf(s: string, n: NumberText, b: bool, o: map<string, Json>, x: Json, items: seq<Json>)
    ensures Text(Str(s)) == s && Text(Number(n)) == n && Text(Bool(b)) == (if b then "true" else "false")
    ensures Text(Object(o)) == "[object Object]" && Text(Array([])) == ""
    ensures Text(Array([x])) == (if x == Null then "" else Text(x))
    ensures items != [] ==> Text(Array([x] + items)) == Text(Array([x])) + "," + Text(Array(items))
  {
    assert ([x] + items)[1..] == items;
  }
}
