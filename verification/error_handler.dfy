/** The Express error handler of backend/src/middleware/errorHandler.js:
    a default status and message, overwritten by each matching rule in
    turn, and the stack shown only in development. */
module ErrorHandler {
  import opened Common

  /** The parts of a thrown error the handler reads. `joiMessage` is
      present iff `err.isJoi`, holding `err.details[0].message`;
      `statusCode` 0 and an empty message count as absent, as `||` does. */
  datatype Error = Error(
    statusCode: Option<int>,
    message: Option<string>,
    joiMessage: Option<string>,
    code: Option<string>,
    name: string,
    stack: string)

  /** A rule: when it applies, the status and message it sets. */
  datatype Rule = Rule(applies: bool, status: int, message: string)

  /** The rules in the order the handler tries them. */
  function Rules(err: Error): (r: seq<Rule>)
    ensures |r| == 5
  {
    [ Rule(err.joiMessage.Some?, 400, if err.joiMessage.Some? then err.joiMessage.value else ""),
      Rule(err.code == Some("23505"), 409, "Resource already exists"),
      Rule(err.code == Some("23503"), 400, "Referenced resource does not exist"),
      Rule(err.name == "JsonWebTokenError", 401, "Invalid token"),
      Rule(err.name == "TokenExpiredError", 401, "Token expired") ]
  }

  /** `err.statusCode || 500` and `err.message || 'Internal Server Error'`. */
  function Default(err: Error): (r: (int, string))
    ensures r.0 == (if err.statusCode.Some? && err.statusCode.value != 0 then err.statusCode.value else 500)
    ensures r.1 == (if Truthy(err.message) then err.message.value else "Internal Server Error")
  {
    (if err.statusCode.Some? && err.statusCode.value != 0 then err.statusCode.value else 500,
     if Truthy(err.message) then err.message.value else "Internal Server Error")
  }

  /** The reference reading: the last rule that applies decides; when
      none applies, the default stands. */
  function LastMatch(rules: seq<Rule>, default: (int, string)): (r: (int, string))
    ensures (forall k :: 0 <= k < |rules| ==> !rules[k].applies) ==> r == default
    ensures forall k ::
              (0 <= k < |rules| && rules[k].applies && forall j :: k < j < |rules| ==> !rules[j].applies)
              ==> r == (rules[k].status, rules[k].message)
  {
    if rules == [] then default
    else
      var last := rules[|rules| - 1];
      if last.applies then (last.status, last.message)
      else LastMatch(rules[..|rules| - 1], default)
  }

  /** The five rules one by one. */
  lemma RulesInOrder(err: Error)
    ensures Rules(err)[0] == Rule(err.joiMessage.Some?, 400, if err.joiMessage.Some? then err.joiMessage.value else "")
    ensures Rules(err)[1] == Rule(err.code == Some("23505"), 409, "Resource already exists")
    ensures Rules(err)[2] == Rule(err.code == Some("23503"), 400, "Referenced resource does not exist")
    ensures Rules(err)[3] == Rule(err.name == "JsonWebTokenError", 401, "Invalid token")
    ensures Rules(err)[4] == Rule(err.name == "TokenExpiredError", 401, "Token expired")
  {
  }

  /** One more rule: it decides if it applies, otherwise the earlier
      rules do. */
  lemma LastMatchStep(rules: seq<Rule>, n: nat, default: (int, string))
    requires n < |rules|
    ensures LastMatch(rules[..n + 1], default) ==
      if rules[n].applies then (rules[n].status, rules[n].message) else LastMatch(rules[..n], default)
  {
    assert rules[..n + 1][..n] == rules[..n];
  }

  /** `errorHandler`: the reply's status, message and, in development
      only, the stack. */
  method HandleError(err: Error, nodeEnv: Option<string>)
    returns (status: int, message: string, stack: Option<string>)
    ensures (status, message) == LastMatch(Rules(err), Default(err))
    ensures stack.Some? <==> nodeEnv == Some("development")
    ensures stack.Some? ==> stack.value == err.stack
  {
    status := if err.statusCode.Some? && err.statusCode.value != 0 then err.statusCode.value else 500;
    message := if Truthy(err.message) then err.message.value else "Internal Server Error";
    ghost var rules := Rules(err);
    ghost var d := Default(err);
    RulesInOrder(err);

    assert rules[..0] == [];
    if err.joiMessage.Some? {
      status := 400;
      message := err.joiMessage.value;
    }
    LastMatchStep(rules, 0, d);
    if err.code == Some("23505") {
      status := 409;
      message := "Resource already exists";
    }
    LastMatchStep(rules, 1, d);
    if err.code == Some("23503") {
      status := 400;
      message := "Referenced resource does not exist";
    }
    LastMatchStep(rules, 2, d);
    if err.name == "JsonWebTokenError" {
      status := 401;
      message := "Invalid token";
    }
    LastMatchStep(rules, 3, d);
    if err.name == "TokenExpiredError" {
      status := 401;
      message := "Token expired";
    }
    LastMatchStep(rules, 4, d);
    assert rules[..5] == rules;
    stack := if nodeEnv == Some("development") then Some(err.stack) else None;
  }

  /** A JWT error that also carries a constraint code is reported as a JWT
      error: the later rule wins. */
  lemma JwtRuleOverridesCode(err: Error)
    requires err.name == "JsonWebTokenError"
    ensures LastMatch(Rules(err), Default(err)) == (401, "Invalid token")
  {
    var rules := Rules(err);
    assert rules[3].applies && forall j :: 3 < j < |rules| ==> !rules[j].applies;
  }

  /** A Joi error with no other marks is a 400 with Joi's first message. */
  lemma JoiErrorIsBadRequest(err: Error)
    requires err.joiMessage.Some? && err.code.None?
    requires err.name != "JsonWebTokenError" && err.name != "TokenExpiredError"
    ensures LastMatch(Rules(err), Default(err)) == (400, err.joiMessage.value)
  {
    var rules := Rules(err);
    assert rules[0].applies && forall j :: 0 < j < |rules| ==> !rules[j].applies;
  }
}
