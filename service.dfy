/** The request handlers of server.js over the in-memory `errors` table:
    `/registerError` (lines 29-37), `/returnErrors` (lines 39-61) and `/test`
    (lines 63-65), each behind the `authenticate` middleware (lines 18-24). */
module Service {
  import opened Wrappers
  import opened Auth
  import opened Store

  /** A JSON (or plain text) response body. */
  datatype Body =
    | ErrorBody(error: string)
    | MessageBody(message: string)
    | BadRequestBody(error: string, message: string, start: Option<string>, finish: Option<string>)
    | RowsBody(rows: seq<Record>)
    | TextBody(text: string)

  datatype Response = Response(status: int, body: Body)

  const UnauthorizedResponse: Response := Response(401, ErrorBody("Unauthorized"))
  const RegisteredMessage: string := "Error registered successfully"
  const BadRequestError: string := "Bad Request"
  const InvalidDateMessage: string :=
    "Invalid date format. Please provide dates in a valid format (e.g., ISO 8601)."

  /** `isValidDate`: `Date.parse` of the query value is not NaN. A missing query
      parameter is `Date.parse(undefined)`, which is NaN. */
  predicate IsValidDate(dateParses: string -> bool, value: Option<string>)
  {
    value.Some? && dateParses(value.value)
  }

  /** The running service: the token fixed at start-up, the two foreign date
      functions it relies on, and the contents of the `errors` table. */
  class ErrorService {
    /** `AUTH_TOKEN` as resolved when the module loads. */
    const token: string
    /** Whether `Date.parse` accepts a string (returns a number other than NaN). */
    const dateParses: string -> bool
    /** The point in time the store compares timestamps with for a query bound. */
    const boundTime: string -> Time

    var rows: seq<Record>
    var nextId: int

    function State(): Table
      reads this
    {
      Table(rows, nextId)
    }

    ghost predicate Valid()
      reads this
    {
      Store.Valid(State())
    }

    /** Module load: resolve the token and run the schema step on the database
        file, which may already hold the table from an earlier run. */
    constructor (env: Option<string>, dateParses: string -> bool, boundTime: string -> Time,
                 onDisk: Option<Table>)
      requires onDisk.Some? ==> Store.Valid(onDisk.value)
      ensures Valid()
      ensures token == AuthToken(env) && this.dateParses == dateParses && this.boundTime == boundTime
      ensures Some(State()) == CreateTableIfNotExists(onDisk)
    {
      token := AuthToken(env);
      this.dateParses := dateParses;
      this.boundTime := boundTime;
      var table := CreateTableIfNotExists(onDisk).value;
      rows := table.rows;
      nextId := table.nextId;
    }

    /** `POST /registerError`: behind the gate, insert the body as a new row
        stamped with the current time; `fault` is the error the INSERT reports, if any. */
    method RegisterError(authorization: Option<string>, error: Payload, now: Time, fault: Option<string>)
      returns (response: Response)
      requires Valid()
      modifies this
      ensures Valid()
      ensures !Authenticate(authorization, token) ==>
                response == UnauthorizedResponse && State() == old(State())
      ensures Authenticate(authorization, token) && fault.Some? ==>
                response == Response(500, ErrorBody(fault.value)) && State() == old(State())
      ensures Authenticate(authorization, token) && fault.None? ==>
                response == Response(200, MessageBody(RegisteredMessage))
                && State() == Insert(old(State()), error, now)
    {
      if !Authenticate(authorization, token) {
        return UnauthorizedResponse;
      }
      if fault.Some? {
        return Response(500, ErrorBody(fault.value));
      }
      var t := Insert(State(), error, now);
      rows, nextId := t.rows, t.nextId;
      response := Response(200, MessageBody(RegisteredMessage));
    }

    /** `GET /returnErrors?start=..&finish=..`: behind the gate, validate both
        bounds (echoing the raw values on failure) and only then query the
        table; `fault` is the error the SELECT reports, if any. */
    method ReturnErrors(authorization: Option<string>, start: Option<string>, finish: Option<string>,
                        fault: Option<string>)
      returns (response: Response)
      requires Valid()
      ensures !Authenticate(authorization, token) ==> response == UnauthorizedResponse
      ensures Authenticate(authorization, token)
              && !(IsValidDate(dateParses, start) && IsValidDate(dateParses, finish)) ==>
                response == Response(400, BadRequestBody(BadRequestError, InvalidDateMessage, start, finish))
      ensures Authenticate(authorization, token)
              && IsValidDate(dateParses, start) && IsValidDate(dateParses, finish) && fault.Some? ==>
                response == Response(500, ErrorBody(fault.value))
      ensures Authenticate(authorization, token)
              && IsValidDate(dateParses, start) && IsValidDate(dateParses, finish) && fault.None? ==>
                && response.status == 200 && response.body.RowsBody?
                && IdsIncreasing(response.body.rows)
                && forall r :: r in response.body.rows <==>
                     r in rows && boundTime(start.value) <= r.timestamp <= boundTime(finish.value)
    {
      if !Authenticate(authorization, token) {
        return UnauthorizedResponse;
      }
      if !IsValidDate(dateParses, start) || !IsValidDate(dateParses, finish) {
        return Response(400, BadRequestBody(BadRequestError, InvalidDateMessage, start, finish));
      }
      if fault.Some? {
        return Response(500, ErrorBody(fault.value));
      }
      var lo, hi := boundTime(start.value), boundTime(finish.value);
      BetweenSelects(rows, lo, hi);
      BetweenKeepsOrder(rows, lo, hi);
      response := Response(200, RowsBody(Between(rows, lo, hi)));
    }

    /** `GET /test`: the liveness probe, behind the gate. */
    method Test(authorization: Option<string>) returns (response: Response)
      ensures Authenticate(authorization, token) ==> response == Response(200, TextBody("ok"))
      ensures !Authenticate(authorization, token) ==> response == UnauthorizedResponse
    {
      if !Authenticate(authorization, token) {
        return UnauthorizedResponse;
      }
      response := Response(200, TextBody("ok"));
    }
  }
}
