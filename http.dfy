/**
 * What a handler sees of HTTP: JSON values of a request, the outcome of a controller
 * handler, and the request/response pair a middleware works on.
 */
module Http {
  import opened Wrappers
  import opened Entities

  /** A JSON value as the body parser and the router deliver it (numbers are integers). */
  datatype Value =
    | Undefined
    | Null
    | Bool(b: bool)
    | Num(n: int)
    | Str(s: string)
    | Obj(fields: map<string, Value>)

  /** A plain JavaScript object: its enumerable own properties. */
  type Object = map<string, Value>

  /** `obj[key]`: undefined when the key is absent. */
  function Get(obj: Object, key: string): Value {
    if key in obj then obj[key] else Undefined
  }

  /** One optional field of a request as a handler reads it: absent (`undefined`; an
      update leaves it out of the SET list), `null` (which `@IsOptional()` lets through
      validation), or a value. */
  datatype Field<T> = Absent | NullValue | Given(value: T)

  /** The column's value after writing `c` over `current`. */
  function Apply<T>(c: Field<T>, current: T): (r: T)
    requires !c.NullValue?
    ensures c.Absent? ==> r == current
    ensures c.Given? ==> r == c.value
  {
    match c
    case Given(v) => v
    case Absent => current
  }

  /**
   * How a controller handler ends:
   *   Reply(s, m)  it writes `res.status(s).json(...)` with message m;
   *   Forward(s)   it calls `next(err)` with `err.statusCode == s`, and the terminal
   *                error handler answers with that status;
   *   Unanswered   an exception escapes the handler (or its catch block), the promise is
   *                rejected and no response is written.
   */
  datatype Outcome = Reply(status: int, message: string) | Forward(status: int) | Unanswered

  /** One written response: its status and the `error` field of its JSON body. */
  datatype Response = Response(status: int, error: Option<string>)

  /** The parts of Express's `req`, `res` and `next` that the middlewares touch. */
  class Exchange {
    /** `req.user`, set by the authentication middleware. */
    var user: Option<User>
    /** `req.dto`, set by the validation middleware. */
    var dto: Option<Object>
    /** How often `next()` has been called. */
    var nextCalls: nat
    /** The responses written, in order. */
    var responses: seq<Response>

    /** A fresh request that no middleware has handled yet. */
    constructor ()
      ensures user == None && dto == None && nextCalls == 0 && responses == []
    {
      user, dto, nextCalls, responses := None, None, 0, [];
    }

    /** `next()`: hand the request to the next handler. */
    method Next()
      modifies this`nextCalls
      ensures nextCalls == old(nextCalls) + 1
    {
      nextCalls := nextCalls + 1;
    }

    /** `res.status(status).json({ error })`. */
    method Send(status: int, error: Option<string>)
      modifies this`responses
      ensures responses == old(responses) + [Response(status, error)]
    {
      responses := responses + [Response(status, error)];
    }
  }
}
