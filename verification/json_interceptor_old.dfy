/** `JSONInterceptor` of the older revision: the content type is cut at its
    first `;`, a configured root that evaluates to `null` is refused, the
    populator is `JSONPopulator`, the SMD lookup goes through
    `JSONUtil.listSMDMethods`, and every JSON-RPC request with SMD enabled
    or disabled is answered with a response, exceptions included.

    `JSONPopulator.convert(Class, Type, Object, Method)` is not part of
    this model: it is the parameter `convert`. The message of an error
    built from an exception is the parameter `describe`. */
module LegacyJsonInterceptor {
  import opened Wrappers
  import opened Text
  import opened JsonValue
  import opened JavaModel
  import opened Rpc
  import JsonUtil
  import I = JsonInterceptor
  import P = Populator

  /** The converter the older `invoke` calls for each argument. */
  type ArgConverter = (JType, JValue, MethodDesc) -> Result<P.JavaVal, P.PopError>

  /** What `intercept` throws. */
  datatype LegacyError =
    | InvalidRoot(expr: string)      // "Invalid root expression: '...'."
    | ParseFailed                    // the parser rejected the body
    | NotAnObject                    // "Unable to deserialize JSON object from request"
    | PopulateFailed(e: P.PopError)

  /** How `intercept` ends: the action is invoked (after the root was
      populated, when it was), a JSON-RPC response is written and `NONE`
      returned, or an exception escapes. */
  datatype LegacyResult =
    | Invoked(populated: Option<seq<Option<P.JavaVal>>>)
    | Responded(response: RpcResponse)
    | Thrown(error: LegacyError)

  /** The header with everything from its first `;` on removed. */
  function MediaType(contentType: string): (r: string)
    ensures ';' !in r
    ensures StartsWith(contentType, r)
    ensures |r| < |contentType| ==> contentType[|r|] == ';'
    ensures ';' !in contentType ==> r == contentType
  {
    IndexOfChar(contentType, ';');
    match IndexOf(contentType, ";")
    case None => contentType
    case Some(i) => contentType[..i]
  }

  /** Parameters after a `;` do not change the media type. */
  lemma MediaTypeDropsParameters(base: string, params: string)
    requires ';' !in base
    ensures MediaType(base + ";" + params) == base
  {
    var s := base + ";" + params;
    assert s[|base|] == ';';
    assert s[..|base|] == base;
  }

  /** The routing of the older `intercept`: the media type, compared with
      the two JSON media types ignoring case. */
  function LegacyRoute(contentType: Option<string>): (r: I.Route)
    ensures contentType.None? ==> r == I.OtherRoute
    ensures contentType.Some? ==> r == I.RouteOf(Some(MediaType(contentType.value)))
  {
    if contentType.None? then I.OtherRoute else I.RouteOf(Some(MediaType(contentType.value)))
  }

  /** Parameters after a `;` do not change the route. */
  lemma RouteIgnoresParameters(base: string, params: string)
    requires ';' !in base
    ensures LegacyRoute(Some(base + ";" + params)) == I.RouteOf(Some(base))
  {
    MediaTypeDropsParameters(base, params);
  }

  /** A JSON header with a charset is routed as JSON (the current
      revision lets the same request through unread, as
      `JsonInterceptor.OtherContentProceeds` shows). */
  lemma CharsetAccepted()
    ensures LegacyRoute(Some("application/json" + ";" + " charset=UTF-8")) == I.JsonRoute
  {
    RouteIgnoresParameters("application/json", " charset=UTF-8");
  }

  /** `getMethod(clazz, name, parameterCount)`: the first method of
      `listSMDMethods` that passes `checkSMDMethodSignature`. */
  function GetMethod(u: ClassTable, ignoreInterfaces: bool, cls: string, name: string, count: int): (r: Option<MethodDesc>)
    requires Closed(u) && cls in u
    ensures var ms := JsonUtil.ListSMDMethods(u, cls, ignoreInterfaces);
      r.None? <==> forall m | m in ms :: !SignatureMatches(m, name, count)
    ensures r.Some? ==> r.value in JsonUtil.ListSMDMethods(u, cls, ignoreInterfaces) && SignatureMatches(r.value, name, count)
  {
    var ms := JsonUtil.ListSMDMethods(u, cls, ignoreInterfaces);
    var r := FirstMatch(ms, name, count);
    if r.None? then
      assert forall m | m in ms :: !SignatureMatches(m, name, count) by {
        forall m | m in ms ensures !SignatureMatches(m, name, count) {
          var k :| 0 <= k < |ms| && ms[k] == m;
        }
      }
      r
    else r
  }

  /** With interfaces ignored, the lookup finds an annotated method of the
      class itself whenever one matches. */
  lemma OwnMethodFound(u: ClassTable, cls: string, m: MethodDesc, name: string, count: int)
    requires Closed(u) && cls in u && m in u[cls].methods && SignatureMatches(m, name, count)
    ensures GetMethod(u, true, cls, name, count).Some?
  {
    assert m in JsonUtil.ListSMDMethods(u, cls, true);
  }

  /** The conversion loop of `invoke`. */
  function ConvertArgs(convert: ArgConverter, m: MethodDesc, items: seq<JValue>, i: nat): (r: Result<seq<P.JavaVal>, P.PopError>)
    requires |m.params| == |items| && i <= |items|
    ensures r.Success? ==> |r.value| == |items| - i
    ensures r.Success? ==> forall k :: i <= k < |items| ==> convert(m.params[k], items[k], m) == Success(r.value[k - i])
    decreases |items| - i
  {
    if i == |items| then Success([])
    else
      var x :- convert(m.params[i], items[i], m);
      var rest :- ConvertArgs(convert, m, items, i + 1);
      Success([x] + rest)
  }

  /** Calling the found method with the request's parameters. */
  function CallWith(convert: ArgConverter, call: Call, m: MethodDesc, items: seq<JValue>): (r: Result<P.JavaVal, I.InvokeError>)
    requires |m.params| == |items|
    ensures r.Success? ==>
      && ConvertArgs(convert, m, items, 0).Success?
      && I.ArgsAssignable(m, ConvertArgs(convert, m, items, 0).value)
      && call(m, ConvertArgs(convert, m, items, 0).value) == Success(r.value)
  {
    var args :-
      match ConvertArgs(convert, m, items, 0)
      case Success(a) => Success(a)
      case Failure(e) => Failure(I.ConversionError(e));
    if !I.ArgsAssignable(m, args) then Failure(I.ConversionError(P.ArgumentMismatch(m.name)))
    else
      match call(m, args)
      case Success(x) => Success(x)
      case Failure(msg) => Failure(I.ThrownByMethod(msg))
  }

  /** `invoke(object, data)` on a root of class `root`. */
  function Invoke(u: ClassTable, ignoreInterfaces: bool, root: string, convert: ArgConverter, call: Call,
                  data: map<string, JValue>): (r: Result<RpcResponse, I.InvokeError>)
    requires Closed(u) && root in u
    ensures r.Failure? ==> "id" in data && data["id"] != JNull
    ensures r.Success? ==> (r.value.id.None? <==> I.Get(data, "id") == JNull)
    ensures r.Success? ==> (r.value.result.Some? <==> r.value.error.None?)
  {
    var idv := I.Get(data, "id");
    if idv.JNull? then
      Success(I.ErrorResponse(None, MethodNotFound, "'id' is required for JSON RPC"))
    else
      var id := Some(idv);
      var params := I.Get(data, "params");
      if !(params.JNull? || params.JList?) then Failure(I.ClassCastError)
      else
        var items := if params.JList? then params.items else [];
        var name := I.Get(data, "method");
        if name.JNull? then
          Success(I.ErrorResponse(id, MissingMethod, "'method' is required for JSON RPC"))
        else if !name.JStr? then Failure(I.ClassCastError)
        else InvokeNamed(u, ignoreInterfaces, root, convert, call, idv, items, name.s)
  }

  /** The part of `invoke` after the id, the parameters and the method
      name have been read: the lookup, the arity check and the call. A
      response keeps the id and carries a result or an error, never both;
      the arity check never fires, since the lookup already matched the
      parameter count. */
  function InvokeNamed(u: ClassTable, ignoreInterfaces: bool, root: string, convert: ArgConverter, call: Call,
                       idv: JValue, items: seq<JValue>, name: string): (r: Result<RpcResponse, I.InvokeError>)
    requires Closed(u) && root in u
    ensures r.Success? ==> r.value.id == Some(idv) && (r.value.result.Some? <==> r.value.error.None?)
    ensures r.Success? && r.value.error.Some? ==> r.value.error.value.code != Coded(ParametersMismatch)
    ensures r.Success? && r.value.error.Some? ==> r.value.error.value.code == Coded(MethodNotFound)
  {
    var id := Some(idv);
    match GetMethod(u, ignoreInterfaces, root, name, |items|)
    case None =>
      Success(I.ErrorResponse(id, MethodNotFound, "Method " + name + " could not be found in action class."))
    case Some(m) =>
      if |items| > 0 && |m.params| != |items| then
        assert false;
        Success(I.ErrorResponse(id, ParametersMismatch,
          "Parameter count in request, " + IntToString(|items|) + " do not match expected parameter count for "
          + name + ", " + IntToString(|m.params|)))
      else
        var x :- CallWith(convert, call, m, items);
        Success(RpcResponse(id, Some(x), None))
  }

  /** `invoke` throws only after it has read a non-null id, so the
      exception handler's `smd.get("id").toString()` never meets `null`. */
  lemma FailureHasId(u: ClassTable, ignoreInterfaces: bool, root: string, convert: ArgConverter, call: Call,
                     data: map<string, JValue>)
    requires Closed(u) && root in u
    requires Invoke(u, ignoreInterfaces, root, convert, call, data).Failure?
    ensures "id" in data && data["id"] != JNull
  {
  }

  /** A response carries a result exactly when it carries no error. */
  lemma ResultOrError(u: ClassTable, ignoreInterfaces: bool, root: string, convert: ArgConverter, call: Call,
                      data: map<string, JValue>)
    requires Closed(u) && root in u
    requires Invoke(u, ignoreInterfaces, root, convert, call, data).Success?
    ensures var r := Invoke(u, ignoreInterfaces, root, convert, call, data).value;
      r.result.Some? <==> r.error.None?
  {
  }

  /** A response lacks an id only when the request had none. */
  lemma ResponseIdMissing(u: ClassTable, ignoreInterfaces: bool, root: string, convert: ArgConverter, call: Call,
                          data: map<string, JValue>)
    requires Closed(u) && root in u
    requires Invoke(u, ignoreInterfaces, root, convert, call, data).Success?
    ensures Invoke(u, ignoreInterfaces, root, convert, call, data).value.id.None? <==> I.Get(data, "id") == JNull
  {
  }

  /** Otherwise it carries the request's id. */
  lemma ResponseIdKept(u: ClassTable, ignoreInterfaces: bool, root: string, convert: ArgConverter, call: Call,
                       data: map<string, JValue>)
    requires Closed(u) && root in u
    requires Invoke(u, ignoreInterfaces, root, convert, call, data).Success?
    requires I.Get(data, "id") != JNull
    ensures Invoke(u, ignoreInterfaces, root, convert, call, data).value.id == Some(data["id"])
  {
  }

  /** The arity check after the lookup is dead here too. */
  lemma LegacyNoParametersMismatch(u: ClassTable, ignoreInterfaces: bool, root: string, convert: ArgConverter, call: Call,
                                   data: map<string, JValue>)
    requires Closed(u) && root in u
    requires Invoke(u, ignoreInterfaces, root, convert, call, data).Success?
    ensures var r := Invoke(u, ignoreInterfaces, root, convert, call, data).value;
      r.error.Some? ==> r.error.value.code != Coded(ParametersMismatch)
  {
  }

  const NotRpcFormat: string := "SMD request was not in the right format. See http://json-rpc.org"
  const SmdNotEnabled: string := "Request with content type of 'application/json-rpc' was received but SMD is "
    + "not enabled for this interceptor. Set 'enableSMD' to true to enable it"

  /** The JSON-RPC branch with SMD enabled: the response written for a
      parsed body, exceptions of `invoke` included. */
  function Answer(u: ClassTable, ignoreInterfaces: bool, root: string, convert: ArgConverter, call: Call,
                  describe: I.InvokeError -> string, body: JValue): (r: RpcResponse)
    requires Closed(u) && root in u
    ensures !body.JObject? ==> r.error.Some? && r.error.value.code == Coded(InvalidProcedureCall)
  {
    if !body.JObject? then
      RpcResponse(None, None, Some(RpcError(Coded(InvalidProcedureCall), NotRpcFormat)))
    else
      match Invoke(u, ignoreInterfaces, root, convert, call, body.fields)
      case Success(r) => r
      case Failure(e) =>
        FailureHasId(u, ignoreInterfaces, root, convert, call, body.fields);
        RpcResponse(Some(body.fields["id"]), None, Some(RpcError(ExceptionCode, describe(e))))
  }

  /** `intercept(invocation)`. `root` is the configured root expression
      and `rootClass` the class of what it (or, when none is configured,
      the action) evaluates to, `None` for `null`. */
  function Intercept(u: ClassTable, enableSMD: bool, ignoreInterfaces: bool,
                     root: Option<string>, rootClass: Option<string>,
                     parse: string -> Option<JValue>, convert: ArgConverter, call: Call,
                     describe: I.InvokeError -> string,
                     contentType: Option<string>, body: string): (r: LegacyResult)
    requires Closed(u) && (rootClass.Some? ==> rootClass.value in u)
    requires root.None? ==> rootClass.Some?
    ensures root.Some? && rootClass.None? ==> r == Thrown(InvalidRoot(root.value))
    ensures r.Responded? ==> LegacyRoute(contentType) == I.JsonRpcRoute
    ensures (root.None? || rootClass.Some?) && LegacyRoute(contentType) == I.OtherRoute ==> r == Invoked(None)
  {
    if root.Some? && rootClass.None? then Thrown(InvalidRoot(root.value))
    else
      match LegacyRoute(contentType)
      case JsonRoute => PopulateRoot(u, rootClass.value, I.ParseBody(parse, body))
      case JsonRpcRoute =>
        if !enableSMD then Responded(RpcResponse(None, None, Some(RpcError(SmdDisabledCode, SmdNotEnabled))))
        else if I.ParseBody(parse, body).None? then Thrown(ParseFailed)
        else Responded(Answer(u, ignoreInterfaces, rootClass.value, convert, call, describe, I.ParseBody(parse, body).value))
      case OtherRoute => Invoked(None)
  }

  /** The `application/json` branch: `JSONPopulator` fills the root. */
  function PopulateRoot(u: ClassTable, root: string, body: Option<JValue>): (r: LegacyResult)
    requires root in u
    ensures !r.Responded?
    ensures r.Invoked? ==>
      && body.Some? && body.value.JObject? && r.populated.Some?
      && P.Populate(P.JsonPopulator, u, root, body.value.fields) == Success(r.populated.value)
  {
    if body.None? then Thrown(ParseFailed)
    else if !body.value.JObject? then Thrown(NotAnObject)
    else
      match P.Populate(P.JsonPopulator, u, root, body.value.fields)
      case Success(vals) => Invoked(Some(vals))
      case Failure(e) => Thrown(PopulateFailed(e))
  }

  /** A configured root that evaluates to `null` is refused before the
      content type is looked at. */
  lemma InvalidRootFirst(u: ClassTable, enableSMD: bool, ignoreInterfaces: bool, expr: string,
                         parse: string -> Option<JValue>, convert: ArgConverter, call: Call,
                         describe: I.InvokeError -> string, contentType: Option<string>, body: string)
    requires Closed(u)
    ensures Intercept(u, enableSMD, ignoreInterfaces, Some(expr), None, parse, convert, call, describe, contentType, body)
      == Thrown(InvalidRoot(expr))
  {
  }

  /** Every JSON-RPC request whose body parses is answered with a response
      and never invokes the action: with SMD disabled an `SMD_DISABLED`
      error, with it enabled an `INVALID_PROCEDURE_CALL` error for a
      non-object body and, when `invoke` throws, an `EXCEPTION` error
      under the request id. */
  lemma RpcAlwaysAnswered(u: ClassTable, enableSMD: bool, ignoreInterfaces: bool, cls: string,
                          parse: string -> Option<JValue>, convert: ArgConverter, call: Call,
                          describe: I.InvokeError -> string, contentType: string, body: string)
    requires Closed(u) && cls in u
    requires EqualsIgnoreCase(MediaType(contentType), "application/json-rpc")
    requires I.ParseBody(parse, body).Some?
    ensures var r := Intercept(u, enableSMD, ignoreInterfaces, None, Some(cls), parse, convert, call, describe, Some(contentType), body);
      && r.Responded?
      && (!enableSMD ==> r.response.error == Some(RpcError(SmdDisabledCode, SmdNotEnabled)))
      && (enableSMD && !I.ParseBody(parse, body).value.JObject? ==>
            r.response.error == Some(RpcError(Coded(InvalidProcedureCall), NotRpcFormat)))
      && (enableSMD && I.ParseBody(parse, body).value.JObject? ==>
            var data := I.ParseBody(parse, body).value.fields;
            Invoke(u, ignoreInterfaces, cls, convert, call, data).Failure? ==>
              r.response == RpcResponse(Some(data["id"]), None,
                Some(RpcError(ExceptionCode, describe(Invoke(u, ignoreInterfaces, cls, convert, call, data).error)))))
  {
    assert !EqualsIgnoreCase(MediaType(contentType), "application/json");
  }
}
