/** The JSON-RPC 2.0 envelope codec: total encoders from the message types to
    a JSON value and fallible decoders back, with the exact order in which the
    decoders check a document and the error each check reports. */
module Codec {
  import opened Wrappers
  import opened Json
  import opened Types

  const VERSION: string := "2.0"

  /** The keys each decoder looks at; every other key of a document is ignored. */
  const REQUEST_KEYS: set<string> := {"jsonrpc", "id", "method", "params"}
  const NOTIFICATION_KEYS: set<string> := {"jsonrpc", "method", "params"}
  const RPC_ERROR_KEYS: set<string> := {"code", "message", "data"}
  const RESPONSE_KEYS: set<string> := {"jsonrpc", "result", "error", "id"}

  // ---------------------------------------------------------------- Id

  /** Decodes an `Id`: a string, or a Number that fits an i64. */
  function IdFromJson(v: Json): (r: Result<Id, Error>)
    ensures r.Ok? <==> v.JStr? || (v.JInt? && I64_MIN <= v.i <= I64_MAX)
    ensures v.JStr? ==> r == Ok(String(v.s))
    ensures v.JInt? && I64_MIN <= v.i <= I64_MAX ==> r == Ok(Number(v.i))
    ensures v.JFloat? || (v.JInt? && !(I64_MIN <= v.i <= I64_MAX)) ==> r == Err(InvalidNumberCast)
    ensures v.JNull? || v.JBool? || v.JArr? || v.JObj? ==> r == Err(UnexpectedIdVariant)
  {
    match v
    case JInt(_) =>
      var n :- AsI64(v).OkOr(InvalidNumberCast);
      Ok(Number(n))
    case JFloat(_) =>
      var n :- AsI64(v).OkOr(InvalidNumberCast);
      Ok(Number(n))
    case JStr(s) => Ok(String(s))
    case _ => Err(UnexpectedIdVariant)
  }

  /** Encodes an `Id`; decoding the result gives the `Id` back. */
  function IdToJson(id: Id): (v: Json)
    ensures v.JStr? <==> id.String?
    ensures IdFromJson(v) == Ok(id)
  {
    match id
    case String(s) => JStr(s)
    case Number(n) => JInt(n)
  }

  /** A document decodes to an `Id` only if it is that `Id`'s encoding. */
  lemma IdDecodeInverse(v: Json, id: Id)
    requires IdFromJson(v) == Ok(id)
    ensures IdToJson(id) == v
  {
  }

  // ---------------------------------------------------------------- Params

  /** Decodes `Params`: only null, an array or an object. */
  function ParamsFromJson(v: Json): (r: Result<Params, Error>)
    ensures r.Ok? <==> v.JNull? || v.JArr? || v.JObj?
    ensures v.JNull? ==> r == Ok(Null)
    ensures v.JArr? ==> r == Ok(Array(v.items))
    ensures v.JObj? ==> r == Ok(Object(v.fields))
    ensures r.Err? ==> r.error == UnexpectedParamsVariant
  {
    match v
    case JNull => Ok(Null)
    case JArr(a) => Ok(Array(a))
    case JObj(o) => Ok(Object(o))
    case _ => Err(UnexpectedParamsVariant)
  }

  /** Encodes `Params`; only the null variant becomes JSON null, and decoding
      the result gives the `Params` back. */
  function ParamsToJson(p: Params): (v: Json)
    ensures v.JNull? <==> p.Null?
    ensures ParamsFromJson(v) == Ok(p)
  {
    match p
    case Array(a) => JArr(a)
    case Object(m) => JObj(m)
    case Null => JNull
  }

  /** A document decodes to `Params` only if it is their encoding. */
  lemma ParamsDecodeInverse(v: Json, p: Params)
    requires ParamsFromJson(v) == Ok(p)
    ensures ParamsToJson(p) == v
  {
  }

  /** `Params::as_array`: the items exactly when the encoding is an array. */
  function ParamsAsArray(p: Params): (r: Option<seq<Json>>)
    ensures r.Some? <==> ParamsToJson(p).JArr?
    ensures r.Some? ==> ParamsToJson(p) == JArr(r.value)
  {
    match p
    case Array(a) => Some(a)
    case _ => None
  }

  /** `Params::as_object`: the map exactly when the encoding is an object. */
  function ParamsAsObject(p: Params): (r: Option<map<string, Json>>)
    ensures r.Some? <==> ParamsToJson(p).JObj?
    ensures r.Some? ==> ParamsToJson(p) == JObj(r.value)
  {
    match p
    case Object(m) => Some(m)
    case _ => None
  }

  // ---------------------------------------------------------------- shared checks

  /** The object carries `jsonrpc` with the string value "2.0". */
  predicate VersionOk(m: map<string, Json>) {
    "jsonrpc" in m && m["jsonrpc"] == JStr(VERSION)
  }

  /** The `jsonrpc` check shared by the request, notification and response
      decoders: a missing key and a wrong value are reported apart. */
  function CheckVersion(m: map<string, Json>): (r: Outcome<Error>)
    ensures r.Pass? <==> VersionOk(m)
    ensures "jsonrpc" !in m ==> r == Fail(JsonRpcVersionNotFound)
    ensures "jsonrpc" in m && !VersionOk(m) ==> r == Fail(InvalidJsonRpcVersion)
  {
    match Get(m, "jsonrpc")
    case None => Fail(JsonRpcVersionNotFound)
    case Some(version) => Need(AsStr(version) == Some(VERSION), InvalidJsonRpcVersion)
  }

  /** The `params` entry, with an absent key read as null. */
  function ParamsField(m: map<string, Json>): Json {
    if "params" in m then m["params"] else JNull
  }

  /** The object carries a `method` whose value is a string. */
  predicate MethodOk(m: map<string, Json>) {
    "method" in m && m["method"].JStr?
  }

  /** The object carries an `id` that decodes. */
  predicate IdOk(m: map<string, Json>) {
    "id" in m && IdFromJson(m["id"]).Ok?
  }

  // ---------------------------------------------------------------- Request

  /** Decodes a `Request`. The checks fire in this order, each failure ending
      the decode: object, `jsonrpc` present, `jsonrpc` is "2.0", `id` present,
      `id` decodes, `method` present, `method` is a string, `params` (absent
      read as null) decodes. */
  function RequestFromJson(v: Json): (r: Result<Request, Error>)
    ensures !v.JObj? ==> r == Err(UnexpectedRequestVariant)
    ensures v.JObj? ==> var m := v.fields;
      && ("jsonrpc" !in m ==> r == Err(JsonRpcVersionNotFound))
      && ("jsonrpc" in m && !VersionOk(m) ==> r == Err(InvalidJsonRpcVersion))
      && (VersionOk(m) && "id" !in m ==> r == Err(ExpectedId))
      && (VersionOk(m) && "id" in m && !IdOk(m) ==> r == Err(IdFromJson(m["id"]).error))
      && (VersionOk(m) && IdOk(m) && "method" !in m ==> r == Err(ExpectedMethod))
      && (VersionOk(m) && IdOk(m) && "method" in m && !MethodOk(m) ==> r == Err(InvalidMethodVariant))
      && (VersionOk(m) && IdOk(m) && MethodOk(m) && ParamsFromJson(ParamsField(m)).Err? ==>
              r == Err(UnexpectedParamsVariant))
    ensures r.Ok? <==>
      v.JObj? && VersionOk(v.fields) && IdOk(v.fields) && MethodOk(v.fields)
      && ParamsFromJson(ParamsField(v.fields)).Ok?
    ensures r.Ok? ==>
      r.value == Request(IdFromJson(v.fields["id"]).value, v.fields["method"].s,
                         ParamsFromJson(ParamsField(v.fields)).value)
  {
    var m :- AsObject(v).OkOr(UnexpectedRequestVariant);
    :- CheckVersion(m);
    var idValue :- Get(m, "id").OkOr(ExpectedId);
    var id :- IdFromJson(idValue);
    var methodValue :- Get(m, "method").OkOr(ExpectedMethod);
    var methodName :- AsStr(methodValue).OkOr(InvalidMethodVariant);
    var params :- ParamsFromJson(ParamsField(m));
    Ok(Request(id, methodName, params))
  }

  /** Encodes a `Request`: always `jsonrpc`, `method` and `id`, and `params`
      only when they are not null. Decoding the result gives the request back. */
  function RequestToJson(req: Request): (v: Json)
    ensures v.JObj?
    ensures v.fields.Keys == {"jsonrpc", "method", "id"} + (if req.params.Null? then {} else {"params"})
    ensures v.fields["jsonrpc"] == JStr(VERSION)
    ensures RequestFromJson(v) == Ok(req)
  {
    var params := ParamsToJson(req.params);
    JObj(map["jsonrpc" := JStr(VERSION), "method" := JStr(req.methodName), "id" := IdToJson(req.id)]
         + (if params.JNull? then map[] else map["params" := params]))
  }

  /** A document that decodes to a request holds, under every key the encoder
      emits, exactly the value the encoder emits, and a `params` entry it
      carries while the request's params are null is itself null. */
  lemma RequestDecodeInverse(v: Json, req: Request)
    requires RequestFromJson(v) == Ok(req)
    ensures v.JObj?
    ensures AgreeOn(RequestToJson(req).fields, v.fields, {"jsonrpc", "method", "id"})
    ensures "params" in v.fields ==> v.fields["params"] == ParamsToJson(req.params)
    ensures !req.params.Null? ==> AgreeOn(RequestToJson(req).fields, v.fields, REQUEST_KEYS)
  {
    var m := v.fields;
    IdDecodeInverse(m["id"], req.id);
    ParamsDecodeInverse(ParamsField(m), req.params);
  }

  /** Request decoding reads no key besides `jsonrpc`, `id`, `method` and
      `params`. */
  lemma RequestReadsOnlyItsKeys(m1: map<string, Json>, m2: map<string, Json>)
    requires AgreeOn(m1, m2, REQUEST_KEYS)
    ensures RequestFromJson(JObj(m1)) == RequestFromJson(JObj(m2))
  {
    assert ParamsField(m1) == ParamsField(m2);
  }

  // ---------------------------------------------------------------- Notification

  /** Decodes a `Notification`: the request checks without the `id` ones. A
      non-object is reported as `UnexpectedRequestVariant`. */
  function NotificationFromJson(v: Json): (r: Result<Notification, Error>)
    ensures !v.JObj? ==> r == Err(UnexpectedRequestVariant)
    ensures v.JObj? ==> var m := v.fields;
      && ("jsonrpc" !in m ==> r == Err(JsonRpcVersionNotFound))
      && ("jsonrpc" in m && !VersionOk(m) ==> r == Err(InvalidJsonRpcVersion))
      && (VersionOk(m) && "method" !in m ==> r == Err(ExpectedMethod))
      && (VersionOk(m) && "method" in m && !MethodOk(m) ==> r == Err(InvalidMethodVariant))
      && (VersionOk(m) && MethodOk(m) && ParamsFromJson(ParamsField(m)).Err? ==>
              r == Err(UnexpectedParamsVariant))
    ensures r.Ok? <==>
      v.JObj? && VersionOk(v.fields) && MethodOk(v.fields) && ParamsFromJson(ParamsField(v.fields)).Ok?
    ensures r.Ok? ==>
      r.value == Notification(v.fields["method"].s, ParamsFromJson(ParamsField(v.fields)).value)
  {
    var m :- AsObject(v).OkOr(UnexpectedRequestVariant);
    :- CheckVersion(m);
    var methodValue :- Get(m, "method").OkOr(ExpectedMethod);
    var methodName :- AsStr(methodValue).OkOr(InvalidMethodVariant);
    var params :- ParamsFromJson(ParamsField(m));
    Ok(Notification(methodName, params))
  }

  /** Encodes a `Notification`: `jsonrpc`, `method` and, even when it is null,
      `params`. Decoding the result gives the notification back. */
  function NotificationToJson(n: Notification): (v: Json)
    ensures v.JObj?
    ensures v.fields.Keys == NOTIFICATION_KEYS
    ensures v.fields["jsonrpc"] == JStr(VERSION)
    ensures NotificationFromJson(v) == Ok(n)
  {
    JObj(map["jsonrpc" := JStr(VERSION), "method" := JStr(n.methodName), "params" := ParamsToJson(n.params)])
  }

  /** A document that decodes to a notification holds the encoder's `jsonrpc`
      and `method`, and its `params` entry, when there is one, is the
      encoder's. */
  lemma NotificationDecodeInverse(v: Json, n: Notification)
    requires NotificationFromJson(v) == Ok(n)
    ensures v.JObj?
    ensures AgreeOn(NotificationToJson(n).fields, v.fields, {"jsonrpc", "method"})
    ensures "params" in v.fields ==> v.fields["params"] == ParamsToJson(n.params)
    ensures "params" !in v.fields ==> n.params.Null?
  {
    ParamsDecodeInverse(ParamsField(v.fields), n.params);
  }

  /** Notification decoding reads no key besides `jsonrpc`, `method` and
      `params`. */
  lemma NotificationReadsOnlyItsKeys(m1: map<string, Json>, m2: map<string, Json>)
    requires AgreeOn(m1, m2, NOTIFICATION_KEYS)
    ensures NotificationFromJson(JObj(m1)) == NotificationFromJson(JObj(m2))
  {
    assert ParamsField(m1) == ParamsField(m2);
  }

  /** An `id` key on a notification document changes nothing. */
  lemma NotificationIgnoresId(m: map<string, Json>, id: Json)
    ensures NotificationFromJson(JObj(m["id" := id])) == NotificationFromJson(JObj(m - {"id"}))
  {
    NotificationReadsOnlyItsKeys(m["id" := id], m - {"id"});
  }

  // ---------------------------------------------------------------- RpcError

  /** The object carries a `code` that fits an i64. */
  predicate CodeOk(m: map<string, Json>) {
    "code" in m && AsI64(m["code"]).Some?
  }

  /** Decodes an `RpcError`: object, `code` present and an i64, `message`
      present and a string (a non-string reports `ExpectedErrorCodeAsString`);
      an absent `data` reads as null. */
  function RpcErrorFromJson(v: Json): (r: Result<RpcError, Error>)
    ensures !v.JObj? ==> r == Err(UnexpectedErrorVariant)
    ensures v.JObj? ==> var m := v.fields;
      && ("code" !in m ==> r == Err(ExpectedErrorCode))
      && ("code" in m && !CodeOk(m) ==> r == Err(ExpectedErrorCodeAsInteger))
      && (CodeOk(m) && "message" !in m ==> r == Err(ExpectedErrorMessage))
      && (CodeOk(m) && "message" in m && !m["message"].JStr? ==> r == Err(ExpectedErrorCodeAsString))
    ensures r.Ok? <==> v.JObj? && CodeOk(v.fields) && "message" in v.fields && v.fields["message"].JStr?
    ensures r.Ok? ==>
      r.value == RpcError(v.fields["code"].i, v.fields["message"].s,
                          if "data" in v.fields then v.fields["data"] else JNull)
  {
    var m :- AsObject(v).OkOr(UnexpectedErrorVariant);
    var codeValue :- Get(m, "code").OkOr(ExpectedErrorCode);
    var code :- AsI64(codeValue).OkOr(ExpectedErrorCodeAsInteger);
    var messageValue :- Get(m, "message").OkOr(ExpectedErrorMessage);
    var message :- AsStr(messageValue).OkOr(ExpectedErrorCodeAsString);
    var data := if "data" in m then m["data"] else JNull;
    Ok(RpcError(code, message, data))
  }

  /** Encodes an `RpcError` with all three keys, `data` included when null.
      Decoding the result gives the error back. */
  function RpcErrorToJson(e: RpcError): (v: Json)
    ensures v.JObj?
    ensures v.fields.Keys == RPC_ERROR_KEYS
    ensures RpcErrorFromJson(v) == Ok(e)
  {
    JObj(map["code" := JInt(e.code), "message" := JStr(e.message), "data" := e.data])
  }

  /** A document that decodes to an error holds the encoder's `code` and
      `message`; it lacks `data` only when the error's data is null. */
  lemma RpcErrorDecodeInverse(v: Json, e: RpcError)
    requires RpcErrorFromJson(v) == Ok(e)
    ensures v.JObj?
    ensures AgreeOn(RpcErrorToJson(e).fields, v.fields, {"code", "message"})
    ensures "data" in v.fields ==> v.fields["data"] == e.data
    ensures "data" !in v.fields ==> e.data == JNull
  {
  }

  /** RpcError decoding reads no key besides `code`, `message` and `data`. */
  lemma RpcErrorReadsOnlyItsKeys(m1: map<string, Json>, m2: map<string, Json>)
    requires AgreeOn(m1, m2, RPC_ERROR_KEYS)
    ensures RpcErrorFromJson(JObj(m1)) == RpcErrorFromJson(JObj(m2))
  {
  }

  // ---------------------------------------------------------------- Response

  /** The `error` entry decoded when present: `map(RpcError::try_from)`
      followed by `transpose`. */
  function ErrorField(m: map<string, Json>): (r: Result<Option<RpcError>, Error>)
    ensures "error" !in m ==> r == Ok(None)
    ensures "error" in m && RpcErrorFromJson(m["error"]).Ok? ==> r == Ok(Some(RpcErrorFromJson(m["error"]).value))
    ensures "error" in m && RpcErrorFromJson(m["error"]).Err? ==> r == Err(RpcErrorFromJson(m["error"]).error)
  {
    match Get(m, "error")
    case None => Ok(None)
    case Some(e) =>
      var decoded :- RpcErrorFromJson(e);
      Ok(Some(decoded))
  }

  /** Exactly one of `result` and `error` must be present. */
  function Exclusive(result: Option<Json>, error: Option<RpcError>): (r: Result<Result<Json, RpcError>, Error>)
    ensures r.Ok? <==> result.Some? != error.Some?
    ensures r.Ok? && result.Some? ==> r.value == Ok(result.value)
    ensures r.Ok? && error.Some? ==> r.value == Err(error.value)
    ensures r.Err? ==> r.error == ResponseExpectsResultOrError
  {
    match (result, error)
    case (None, Some(e)) => Ok(Err(e))
    case (Some(v), None) => Ok(Ok(v))
    case _ => Err(ResponseExpectsResultOrError)
  }

  /** The `error` entry, if any, decodes. */
  predicate ErrorEntryOk(m: map<string, Json>) {
    "error" in m ==> RpcErrorFromJson(m["error"]).Ok?
  }

  /** Exactly one of `result` and `error` is present. */
  predicate OneOutcome(m: map<string, Json>) {
    ("result" in m) != ("error" in m)
  }

  /** Decodes a `Response`. The checks fire in this order: object, `jsonrpc`
      present, `jsonrpc` is "2.0", a present `error` decodes, exactly one of
      `result`/`error` is present, `id` present, `id` decodes. A `result`
      entry holding null counts as present. */
  function ResponseFromJson(v: Json): (r: Result<Response, Error>)
    ensures !v.JObj? ==> r == Err(UnexpectedResponseVariant)
    ensures v.JObj? ==> var m := v.fields;
      && ("jsonrpc" !in m ==> r == Err(JsonRpcVersionNotFound))
      && ("jsonrpc" in m && !VersionOk(m) ==> r == Err(InvalidJsonRpcVersion))
      && (VersionOk(m) && !ErrorEntryOk(m) ==> r == Err(RpcErrorFromJson(m["error"]).error))
      && (VersionOk(m) && ErrorEntryOk(m) && !OneOutcome(m) ==> r == Err(ResponseExpectsResultOrError))
      && (VersionOk(m) && ErrorEntryOk(m) && OneOutcome(m) && "id" !in m ==> r == Err(ExpectedId))
      && (VersionOk(m) && ErrorEntryOk(m) && OneOutcome(m) && "id" in m && !IdOk(m) ==>
              r == Err(IdFromJson(m["id"]).error))
    ensures r.Ok? <==>
      v.JObj? && VersionOk(v.fields) && ErrorEntryOk(v.fields) && OneOutcome(v.fields) && IdOk(v.fields)
    ensures r.Ok? ==>
      && r.value.id == IdFromJson(v.fields["id"]).value
      && r.value.result == if "result" in v.fields then Ok(v.fields["result"])
                           else Err(RpcErrorFromJson(v.fields["error"]).value)
  {
    var m :- AsObject(v).OkOr(UnexpectedResponseVariant);
    :- CheckVersion(m);
    var result := Get(m, "result");
    var error :- ErrorField(m);
    var outcome :- Exclusive(result, error);
    var idValue :- Get(m, "id").OkOr(ExpectedId);
    var id :- IdFromJson(idValue);
    Ok(Response(id, outcome))
  }

  /** Encodes a `Response`: `jsonrpc`, `id` and exactly one of `result` and
      `error`. Decoding the result gives the response back, a null success
      value included. */
  function ResponseToJson(resp: Response): (v: Json)
    ensures v.JObj?
    ensures v.fields.Keys == {"jsonrpc", "id", if resp.result.Ok? then "result" else "error"}
    ensures v.fields["jsonrpc"] == JStr(VERSION)
    ensures ResponseFromJson(v) == Ok(resp)
  {
    var outcome := match resp.result
      case Ok(value) => map["result" := value]
      case Err(e) => map["error" := RpcErrorToJson(e)];
    JObj(map["jsonrpc" := JStr(VERSION), "id" := IdToJson(resp.id)] + outcome)
  }

  /** A document that decodes to a response holds the encoder's `jsonrpc`,
      `id` and `result`; its `error` decodes to the response's error, whose
      encoding it equals up to a missing `data` key, which means null data. */
  lemma ResponseDecodeInverse(v: Json, resp: Response)
    requires ResponseFromJson(v) == Ok(resp)
    ensures v.JObj?
    ensures AgreeOn(ResponseToJson(resp).fields, v.fields, {"jsonrpc", "id", "result"})
    ensures resp.result.Err? ==>
      "error" in v.fields && "result" !in v.fields
      && AgreeOn(RpcErrorToJson(resp.result.error).fields, v.fields["error"].fields, {"code", "message"})
      && ("data" in v.fields["error"].fields ==> v.fields["error"].fields["data"] == resp.result.error.data)
      && ("data" !in v.fields["error"].fields ==> resp.result.error.data == JNull)
  {
    var m := v.fields;
    IdDecodeInverse(m["id"], resp.id);
    if resp.result.Err? {
      RpcErrorDecodeInverse(m["error"], resp.result.error);
    }
  }

  /** Response decoding reads no key besides `jsonrpc`, `result`, `error` and
      `id`. */
  lemma ResponseReadsOnlyItsKeys(m1: map<string, Json>, m2: map<string, Json>)
    requires AgreeOn(m1, m2, RESPONSE_KEYS)
    ensures ResponseFromJson(JObj(m1)) == ResponseFromJson(JObj(m2))
  {
  }
}
