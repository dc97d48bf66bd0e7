/** The request-body schemas of backend/src/middleware/validation.js and
    the `validate` middleware. Joi's own string and email rules are
    parameters (`Joi`). */
module Validation {
  import opened Common

  /** A JSON value as far as the schemas care: a string or anything else. */
  datatype Json = Str(s: string) | NonString

  /** A request body: its keys, in order, with their values. */
  type Body = seq<(string, Json)>

  /** What Joi decides on its own: which strings `Joi.string()` admits
      (it refuses the empty string unless told otherwise) and which
      strings are valid emails. */
  datatype Joi = Joi(acceptsString: string -> bool, isEmail: string -> bool)

  /** The rule for one key: a `Joi.string()` with optional `min`, `max`,
      `email()` and `valid(...)`, required or optional. */
  datatype Rule = Rule(required: bool, minLen: Option<nat>, maxLen: Option<nat>,
                       email: bool, only: Option<seq<string>>)

  /** An object schema: its keys in declaration order, and whether unknown
      keys are stripped (`stripUnknown`) rather than refused. */
  datatype Schema = Schema(rules: seq<(string, Rule)>, stripUnknown: bool)

  /** Why a body was refused: the key and the rule it broke. */
  datatype Kind = Missing | NotAString | Refused | TooShort | TooLong | NotAnEmail | NotAllowed | Unknown
  datatype Issue = Issue(key: string, kind: Kind)

  /** The value under `key`, if the body has it. A key given twice keeps
      its last value, as `JSON.parse` does. */
  function Lookup(body: Body, key: string): (r: Option<Json>)
    ensures r.Some? <==> exists k :: 0 <= k < |body| && body[k].0 == key
    ensures r.Some? ==>
      exists k :: 0 <= k < |body| && body[k] == (key, r.value) && forall j :: k < j < |body| ==> body[j].0 != key
  {
    var backwards := Reverse(body);
    match FindIndex(backwards, (entry: (string, Json)) => entry.0 == key)
    case Some(i) =>
      var k := |body| - 1 - i;
      assert forall j :: k < j < |body| ==> body[j] == backwards[|body| - 1 - j];
      Some(body[k].1)
    case None =>
      assert forall j :: 0 <= j < |body| ==> body[j] == backwards[|body| - 1 - j];
      None
  }

  /** The first rule a present string value breaks, in Joi's order: none
      exactly when the value meets every part of its rule, and `Refused`
      exactly when Joi does not admit the string at all. */
  function CheckString(s: string, rule: Rule, joi: Joi): (r: Option<Kind>)
    ensures r.None? <==> StringOk(s, rule, joi)
    ensures r == Some(Refused) <==> !joi.acceptsString(s)
    ensures r.Some? ==> r.value != Missing && r.value != NotAString && r.value != Unknown
  {
    if !joi.acceptsString(s) then Some(Refused)
    else if rule.minLen.Some? && |s| < rule.minLen.value then Some(TooShort)
    else if rule.maxLen.Some? && |s| > rule.maxLen.value then Some(TooLong)
    else if rule.email && !joi.isEmail(s) then Some(NotAnEmail)
    else if rule.only.Some? && s !in rule.only.value then Some(NotAllowed)
    else None
  }

  /** A present string value meets every part of its rule. */
  predicate StringOk(s: string, rule: Rule, joi: Joi) {
    joi.acceptsString(s)
    && (rule.minLen.Some? ==> |s| >= rule.minLen.value)
    && (rule.maxLen.Some? ==> |s| <= rule.maxLen.value)
    && (rule.email ==> joi.isEmail(s))
    && (rule.only.Some? ==> s in rule.only.value)
  }

  /** What one key's rule says of the body. */
  function CheckKey(body: Body, key: string, rule: Rule, joi: Joi): (r: Option<Kind>)
    ensures r.None? <==>
      match Lookup(body, key)
      case None => !rule.required
      case Some(v) => v.Str? && StringOk(v.s, rule, joi)
  {
    match Lookup(body, key)
    case None => if rule.required then Some(Missing) else None
    case Some(NonString) => Some(NotAString)
    case Some(Str(s)) => CheckString(s, rule, joi)
  }

  /** The first issue among the schema's keys, in declaration order. */
  function FirstRuleIssue(body: Body, rules: seq<(string, Rule)>, joi: Joi): (r: Option<Issue>)
    ensures r.None? <==> forall k :: 0 <= k < |rules| ==> CheckKey(body, rules[k].0, rules[k].1, joi).None?
    ensures r.Some? ==> exists k :: 0 <= k < |rules| && r.value.key == rules[k].0
  {
    if rules == [] then None
    else
      match CheckKey(body, rules[0].0, rules[0].1, joi)
      case Some(kind) => Some(Issue(rules[0].0, kind))
      case None => FirstRuleIssue(body, rules[1..], joi)
  }

  /** `key` is one of the schema's keys. */
  predicate Known(rules: seq<(string, Rule)>, key: string) {
    exists k :: 0 <= k < |rules| && rules[k].0 == key
  }

  /** The first body key the schema does not know. */
  function FirstUnknown(body: Body, rules: seq<(string, Rule)>): (r: Option<string>)
    ensures r.None? <==> forall k :: 0 <= k < |body| ==> Known(rules, body[k].0)
    ensures r.Some? ==> !Known(rules, r.value)
  {
    if body == [] then None
    else if !Known(rules, body[0].0) then Some(body[0].0)
    else FirstUnknown(body[1..], rules)
  }

  /** `schema.validate(body).error`, reduced to its first detail. */
  function FirstIssue(schema: Schema, body: Body, joi: Joi): (r: Option<Issue>)
    ensures r.None? <==>
      (forall k :: 0 <= k < |schema.rules| ==> CheckKey(body, schema.rules[k].0, schema.rules[k].1, joi).None?)
      && (schema.stripUnknown || forall k :: 0 <= k < |body| ==> Known(schema.rules, body[k].0))
  {
    match FirstRuleIssue(body, schema.rules, joi)
    case Some(issue) => Some(issue)
    case None =>
      if schema.stripUnknown then None
      else
        match FirstUnknown(body, schema.rules)
        case Some(key) => Some(Issue(key, Unknown))
        case None => None
  }

  /** `Joi.string()` with optional `.min`/`.max` lengths, not an email
      and with no allowed-values list. */
  function StringRule(min: Option<nat>, max: Option<nat>, required: bool): Rule {
    Rule(required, min, max, false, None)
  }

  const LoginSchema: Schema := Schema([
    ("email", Rule(true, None, None, true, None)),
    ("password", StringRule(Some(3), None, true)),
    ("action", Rule(false, None, None, false, Some(["login"])))], false)

  const RegisterSchema: Schema := Schema([
    ("name", StringRule(Some(2), Some(100), true)),
    ("email", Rule(true, None, None, true, None)),
    ("password", StringRule(Some(6), None, true))], false)

  const UpdateUserSchema: Schema := Schema([
    ("name", StringRule(Some(2), Some(100), false)),
    ("email", Rule(false, None, None, true, None)),
    ("coordinates", StringRule(None, None, false)),
    ("city", StringRule(None, Some(100), false)),
    ("state", StringRule(None, Some(100), false)),
    ("country", StringRule(None, Some(100), false))], false)

  const LocationUpdateSchema: Schema := Schema([
    ("coordinates", StringRule(None, None, true)),
    ("city", StringRule(None, Some(100), false)),
    ("state", StringRule(None, Some(100), false)),
    ("country", StringRule(None, Some(100), false)),
    ("user_id", StringRule(None, None, false)),
    ("userId", StringRule(None, None, false)),
    ("name", StringRule(None, None, false))], true)

  /** The value under `key` is a string Joi admits and meets `ok`. */
  predicate PresentString(body: Body, key: string, joi: Joi, ok: string -> bool) {
    var v := Lookup(body, key);
    v.Some? && v.value.Str? && joi.acceptsString(v.value.s) && ok(v.value.s)
  }

  /** Absent, or a string Joi admits that meets `ok`. */
  predicate OptionalString(body: Body, key: string, joi: Joi, ok: string -> bool) {
    var v := Lookup(body, key);
    v.None? || (v.value.Str? && joi.acceptsString(v.value.s) && ok(v.value.s))
  }

  /** A required key's rule, read as a condition on the body. */
  lemma RequiredKey(body: Body, key: string, rule: Rule, joi: Joi, ok: string -> bool)
    requires rule.required
    requires forall s :: StringOk(s, rule, joi) <==> joi.acceptsString(s) && ok(s)
    ensures CheckKey(body, key, rule, joi).None? <==> PresentString(body, key, joi, ok)
  {
  }

  /** An optional key's rule, read as a condition on the body. */
  lemma OptionalKey(body: Body, key: string, rule: Rule, joi: Joi, ok: string -> bool)
    requires !rule.required
    requires forall s :: StringOk(s, rule, joi) <==> joi.acceptsString(s) && ok(s)
    ensures CheckKey(body, key, rule, joi).None? <==> OptionalString(body, key, joi, ok)
  {
  }

  /** Every declared key passes: the rules one by one. */
  predicate AllKeysPass(body: Body, rules: seq<(string, Rule)>, joi: Joi) {
    forall k :: 0 <= k < |rules| ==> CheckKey(body, rules[k].0, rules[k].1, joi).None?
  }

  lemma KeysPass3(body: Body, rules: seq<(string, Rule)>, joi: Joi)
    requires |rules| == 3
    ensures AllKeysPass(body, rules, joi) <==>
      && CheckKey(body, rules[0].0, rules[0].1, joi).None?
      && CheckKey(body, rules[1].0, rules[1].1, joi).None?
      && CheckKey(body, rules[2].0, rules[2].1, joi).None?
  {
  }

  lemma KeysPass6(body: Body, rules: seq<(string, Rule)>, joi: Joi)
    requires |rules| == 6
    ensures AllKeysPass(body, rules, joi) <==>
      && CheckKey(body, rules[0].0, rules[0].1, joi).None?
      && CheckKey(body, rules[1].0, rules[1].1, joi).None?
      && CheckKey(body, rules[2].0, rules[2].1, joi).None?
      && CheckKey(body, rules[3].0, rules[3].1, joi).None?
      && CheckKey(body, rules[4].0, rules[4].1, joi).None?
      && CheckKey(body, rules[5].0, rules[5].1, joi).None?
  {
  }

  lemma KeysPass7(body: Body, rules: seq<(string, Rule)>, joi: Joi)
    requires |rules| == 7
    ensures AllKeysPass(body, rules, joi) <==>
      && CheckKey(body, rules[0].0, rules[0].1, joi).None?
      && CheckKey(body, rules[1].0, rules[1].1, joi).None?
      && CheckKey(body, rules[2].0, rules[2].1, joi).None?
      && CheckKey(body, rules[3].0, rules[3].1, joi).None?
      && CheckKey(body, rules[4].0, rules[4].1, joi).None?
      && CheckKey(body, rules[5].0, rules[5].1, joi).None?
      && CheckKey(body, rules[6].0, rules[6].1, joi).None?
  {
  }

  /** Every key of the body is one of three. */
  predicate OnlyKeys(body: Body, a: string, b: string, c: string) {
    forall k :: 0 <= k < |body| ==> body[k].0 == a || body[k].0 == b || body[k].0 == c
  }

  /** A login body passes iff the email is a valid email, the password a
      string of at least 3 characters, `action`, when given, is "login",
      and there is no other key. */
  lemma LoginRule(body: Body, joi: Joi)
    ensures FirstIssue(LoginSchema, body, joi).None? <==>
      PresentString(body, "email", joi, joi.isEmail)
      && PresentString(body, "password", joi, s => |s| >= 3)
      && OptionalString(body, "action", joi, s => s == "login")
      && OnlyKeys(body, "email", "password", "action")
  {
    var rules := LoginSchema.rules;
    RequiredKey(body, "email", rules[0].1, joi, joi.isEmail);
    RequiredKey(body, "password", rules[1].1, joi, s => |s| >= 3);
    OptionalKey(body, "action", rules[2].1, joi, s => s == "login");
    assert forall key :: Known(rules, key) <==> key == "email" || key == "password" || key == "action" by {
      forall key | key == "email" || key == "password" || key == "action" ensures Known(rules, key) {
        if key == "email" { assert rules[0].0 == key; }
        else if key == "password" { assert rules[1].0 == key; }
        else { assert rules[2].0 == key; }
      }
    }
    KeysPass3(body, rules, joi);
  }

  /** A register body passes iff the name has 2 to 100 characters, the
      email is valid, the password has at least 6 characters, and there is
      no other key. */
  lemma RegisterRule(body: Body, joi: Joi)
    ensures FirstIssue(RegisterSchema, body, joi).None? <==>
      PresentString(body, "name", joi, s => 2 <= |s| <= 100)
      && PresentString(body, "email", joi, joi.isEmail)
      && PresentString(body, "password", joi, s => |s| >= 6)
      && OnlyKeys(body, "name", "email", "password")
  {
    var rules := RegisterSchema.rules;
    RequiredKey(body, "name", rules[0].1, joi, s => 2 <= |s| <= 100);
    RequiredKey(body, "email", rules[1].1, joi, joi.isEmail);
    RequiredKey(body, "password", rules[2].1, joi, s => |s| >= 6);
    assert forall key :: Known(rules, key) <==> key == "name" || key == "email" || key == "password" by {
      forall key | key == "name" || key == "email" || key == "password" ensures Known(rules, key) {
        if key == "name" { assert rules[0].0 == key; }
        else if key == "email" { assert rules[1].0 == key; }
        else { assert rules[2].0 == key; }
      }
    }
    KeysPass3(body, rules, joi);
  }

  /** A location update passes iff `coordinates` is a string, city, state
      and country, when given, have at most 100 characters, and `user_id`,
      `userId` and `name`, when given, are strings; any other key, such as
      `timestamp` or `action`, is ignored. */
  lemma LocationUpdateRule(body: Body, joi: Joi)
    ensures FirstIssue(LocationUpdateSchema, body, joi).None? <==>
      PresentString(body, "coordinates", joi, s => true)
      && OptionalString(body, "city", joi, s => |s| <= 100)
      && OptionalString(body, "state", joi, s => |s| <= 100)
      && OptionalString(body, "country", joi, s => |s| <= 100)
      && OptionalString(body, "user_id", joi, s => true)
      && OptionalString(body, "userId", joi, s => true)
      && OptionalString(body, "name", joi, s => true)
  {
    var rules := LocationUpdateSchema.rules;
    RequiredKey(body, "coordinates", rules[0].1, joi, s => true);
    OptionalKey(body, "city", rules[1].1, joi, s => |s| <= 100);
    OptionalKey(body, "state", rules[2].1, joi, s => |s| <= 100);
    OptionalKey(body, "country", rules[3].1, joi, s => |s| <= 100);
    OptionalKey(body, "user_id", rules[4].1, joi, s => true);
    OptionalKey(body, "userId", rules[5].1, joi, s => true);
    OptionalKey(body, "name", rules[6].1, joi, s => true);
    KeysPass7(body, rules, joi);
  }

  /** Every key of the body is one of `keys`. */
  predicate KeysAmong(body: Body, keys: seq<string>) {
    forall k :: 0 <= k < |body| ==> body[k].0 in keys
  }

  /** An update-user body passes iff the name, when given, has 2 to 100
      characters, the email, when given, is valid, coordinates, when given,
      is a string, city, state and country, when given, have at most 100
      characters, and there is no other key. */
  lemma UpdateUserRule(body: Body, joi: Joi)
    ensures FirstIssue(UpdateUserSchema, body, joi).None? <==>
      OptionalString(body, "name", joi, s => 2 <= |s| <= 100)
      && OptionalString(body, "email", joi, joi.isEmail)
      && OptionalString(body, "coordinates", joi, s => true)
      && OptionalString(body, "city", joi, s => |s| <= 100)
      && OptionalString(body, "state", joi, s => |s| <= 100)
      && OptionalString(body, "country", joi, s => |s| <= 100)
      && KeysAmong(body, ["name", "email", "coordinates", "city", "state", "country"])
  {
    var rules := UpdateUserSchema.rules;
    var keys := ["name", "email", "coordinates", "city", "state", "country"];
    OptionalKey(body, "name", rules[0].1, joi, s => 2 <= |s| <= 100);
    OptionalKey(body, "email", rules[1].1, joi, joi.isEmail);
    OptionalKey(body, "coordinates", rules[2].1, joi, s => true);
    OptionalKey(body, "city", rules[3].1, joi, s => |s| <= 100);
    OptionalKey(body, "state", rules[4].1, joi, s => |s| <= 100);
    OptionalKey(body, "country", rules[5].1, joi, s => |s| <= 100);
    UpdateUserKnown(body);
    KeysPass6(body, rules, joi);
  }

  /** The update-user schema knows exactly its six keys. */
  lemma UpdateUserKnown(body: Body)
    ensures (forall k :: 0 <= k < |body| ==> Known(UpdateUserSchema.rules, body[k].0)) <==>
      KeysAmong(body, ["name", "email", "coordinates", "city", "state", "country"])
  {
    var rules := UpdateUserSchema.rules;
    var keys := ["name", "email", "coordinates", "city", "state", "country"];
    assert forall i :: 0 <= i < |keys| ==> rules[i].0 == keys[i];
    forall key | key in keys ensures Known(rules, key) {
      var i :| 0 <= i < |keys| && keys[i] == key;
      assert rules[i].0 == key;
    }
  }

  /** In an update-user body every key is optional: the empty body passes. */
  lemma UpdateUserAllOptional(joi: Joi)
    ensures FirstIssue(UpdateUserSchema, [], joi).None?
  {
    UpdateUserRule([], joi);
  }

  /** What `validate(schema)` does with a request: `next()` with the body
      untouched, or 400 with the message of the first issue. */
  datatype Gate = Proceed(body: Body) | BadRequest(status: nat, message: string)

  /** `validate(schema)`; `render` is Joi's wording of an issue. */
  function Validate(schema: Schema, body: Body, joi: Joi, render: Issue -> string): (r: Gate)
    ensures r.Proceed? <==> FirstIssue(schema, body, joi).None?
    ensures r.Proceed? ==> r.body == body
    ensures r.BadRequest? ==> r.status == 400 && r.message == render(FirstIssue(schema, body, joi).value)
  {
    match FirstIssue(schema, body, joi)
    case None => Proceed(body)
    case Some(issue) => BadRequest(400, render(issue))
  }
}
