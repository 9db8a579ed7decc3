/** The JSON-RPC 2.0 message types and the decode-failure taxonomy. */
module Types {
  import opened Wrappers
  import opened Json

  /** The reasons a JSON document fails to decode: a flat enumeration with no
      payload, compared structurally. */
  datatype Error =
    | UnexpectedIdVariant
    | UnexpectedParamsVariant
    | UnexpectedRequestVariant
    | InvalidNumberCast
    | JsonRpcVersionNotFound
    | InvalidJsonRpcVersion
    | ExpectedId
    | ExpectedMethod
    | InvalidMethodVariant
    | UnexpectedNotificationVariant
    | UnexpectedErrorVariant
    | ExpectedErrorCode
    | ExpectedErrorCodeAsInteger
    | ExpectedErrorMessage
    | ExpectedErrorCodeAsString
    | UnexpectedResponseVariant
    | ResponseExpectsResultOrError

  /** The correlation key: a string or a signed 64-bit integer, never null. */
  datatype Id = String(s: string) | Number(n: Int64)

  /** Call arguments: positional, named, or absent. */
  datatype Params = Array(items: seq<Json>) | Object(fields: map<string, Json>) | Null

  /** A call that expects a reply; it always carries an `Id`. */
  datatype Request = Request(id: Id, methodName: string, params: Params)

  /** A fire-and-forget call; it has no `Id`. */
  datatype Notification = Notification(methodName: string, params: Params)

  /** The structured failure a peer returns in place of a result. */
  datatype RpcError = RpcError(code: Int64, message: string, data: Json)

  /** A reply: exactly one of a success value or an `RpcError`. */
  datatype Response = Response(id: Id, result: Result<Json, RpcError>)
}
