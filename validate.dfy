/**
 * The validation middleware (helpers/validate.ts): the request's body, route parameters
 * and `req.me` are merged into one object, copied onto a fresh DTO instance, validated,
 * and either handed on as `req.dto` or answered with the first constraint message.
 */
module Validate {
  import opened Wrappers
  import opened Http

  /**
   * `{ ...req.body, ...req.params, _me: req.me }`: later spreads win, so a route parameter
   * overrides a body field of the same name and `_me` overrides both.  (Nothing in the
   * application sets `req.me`, so `me` is `Undefined` there.)
   */
  function Merge(body: Object, params: Object, me: Value): (r: Object)
    ensures forall k :: k in r <==> k in body || k in params || k == "_me"
    ensures r["_me"] == me
    ensures forall k :: k in params && k != "_me" ==> r[k] == params[k]
    ensures forall k :: k in body && k !in params && k != "_me" ==> r[k] == body[k]
  {
    (body + params)["_me" := me]
  }

  /** A client cannot smuggle its own `_me` in: whatever body and parameters say, the
      merged object carries the middleware's value, and every other key is unaffected by
      `me`. */
  lemma MeCannotBeForged(body: Object, params: Object, me: Value, other: Value)
    requires "_me" in body || "_me" in params
    ensures Merge(body, params, me)["_me"] == me
    ensures forall k :: k in Merge(body, params, me) && k != "_me" ==>
      Merge(body, params, me)[k] == Merge(body, params, other)[k]
  {
  }

  /**
   * createInstanceFromJson (validate.ts:27-38): a fresh instance (its constructor's
   * properties `defaults`), then every enumerable own property of `json`, in `for...in`
   * order, assigned onto it.  The order does not matter: each key is assigned once.
   */
  method CreateInstanceFromJson(defaults: Object, json: Object) returns (obj: Object)
    ensures forall k :: k in obj <==> k in defaults || k in json
    ensures forall k :: k in json ==> obj[k] == json[k]
    ensures forall k :: k in defaults && k !in json ==> obj[k] == defaults[k]
  {
    obj := defaults;
    var pending := json.Keys;
    while pending != {}
      invariant pending <= json.Keys
      invariant forall k :: k in obj <==> k in defaults || (k in json && k !in pending)
      invariant forall k :: k in json && k !in pending ==> obj[k] == json[k]
      invariant forall k :: k in defaults && k !in json ==> obj[k] == defaults[k]
      invariant forall k :: k in defaults && k in pending ==> obj[k] == defaults[k]
      decreases pending
    {
      var prop :| prop in pending;
      obj := obj[prop := json[prop]];
      pending := pending - {prop};
    }
  }

  /** One `ValidationError`: the property it is about and its `constraints`, a dictionary
      from constraint name to message given by its keys in order (None: the error has no
      `constraints` object). */
  datatype Check = Check(property: string, constraints: Option<seq<(string, string)>>)

  /** What the middleware does with the errors of `validate(obj)`. */
  datatype Verdict =
    | Pass                          // no error: `req.dto = obj; next()`
    | Reject(error: Option<string>) // `res.status(400).json({ error })`
    | Throws                        // `Object.keys(undefined)` throws: no response

  /**
   * The first error's first constraint decides.  An empty `constraints` object gives an
   * `undefined` message, which the JSON body leaves out (None).
   */
  function Judge(errors: seq<Check>): (v: Verdict)
    ensures v == Pass <==> errors == []
    ensures v == Throws <==> errors != [] && errors[0].constraints.None?
    ensures v.Reject? && v.error.Some? ==>
      errors[0].constraints.Some? && errors[0].constraints.value != [] &&
      v.error.value == errors[0].constraints.value[0].1
    ensures v.Reject? && v.error.None? ==> errors[0].constraints == Some([])
  {
    if errors == [] then Pass
    else match errors[0].constraints
      case None => Throws
      case Some(cs) => Reject(if cs == [] then None else Some(cs[0].1))
  }

  /** Whatever later errors say, only the first one is reported. */
  lemma OnlyFirstErrorReported(first: Check, rest: seq<Check>, other: seq<Check>)
    ensures Judge([first] + rest) == Judge([first] + other)
  {
  }

  /**
   * Validator.validate (validate.ts:4-25) on one request.  `errorsOf` is class-validator's
   * `validate` for the DTO class.  On no error `req.dto` is the built object and `next()`
   * is called; on an error one 400 response is written and neither happens; when the
   * first error has no constraints nothing at all happens.
   */
  method Validate(ex: Exchange, defaults: Object, body: Object, params: Object, me: Value,
                  errorsOf: Object -> seq<Check>)
    modifies ex`dto, ex`nextCalls, ex`responses
    ensures var obj := defaults + Merge(body, params, me);
      match Judge(errorsOf(obj))
      case Pass =>
        ex.dto == Some(obj) && ex.nextCalls == old(ex.nextCalls) + 1 &&
        ex.responses == old(ex.responses)
      case Reject(error) =>
        ex.dto == old(ex.dto) && ex.nextCalls == old(ex.nextCalls) &&
        ex.responses == old(ex.responses) + [Response(400, error)]
      case Throws =>
        ex.dto == old(ex.dto) && ex.nextCalls == old(ex.nextCalls) &&
        ex.responses == old(ex.responses)
  {
    var obj := CreateInstanceFromJson(defaults, Merge(body, params, me));
    assert obj == defaults + Merge(body, params, me);
    var verdict := Judge(errorsOf(obj));
    match verdict
    case Pass =>
      ex.dto := Some(obj);
      ex.Next();
    case Reject(error) =>
      ex.Send(400, error);
    case Throws =>
  }
}
