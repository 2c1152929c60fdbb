/** `JSONInterceptor` of the current revision: routing a request by its
    content type, populating the root object from a JSON body, and
    dispatching a JSON-RPC call to an `@SMDMethod` method of the root.

    The root object is given by its class (`None` for a null root); the
    parser `JSONUtil.deserialize(String)` is a parameter returning `None`
    where it throws; the called method is a `Call`. */
module JsonInterceptor {
  import opened Wrappers
  import opened Text
  import opened JsonValue
  import opened JavaModel
  import opened Rpc
  import JsonUtil
  import P = Populator

  /** What `invoke` throws instead of returning a response. */
  datatype InvokeError =
    | ClassCastError                   // `params` not a list, or `method` not a string
    | ConversionError(e: P.PopError)   // a parameter could not be converted or passed
    | ThrownByMethod(message: string)  // the called method threw
    | NullObject                       // the root object is null

  /** What `intercept` throws. */
  datatype InterceptError =
    | ParseFailed               // the parser rejected the body
    | NotAnObject               // "Unable to deserialize JSON object from request"
    | SmdDisabled               // a JSON-RPC request while SMD is off
    | PopulateFailed(e: P.PopError)
    | InvokeFailed(cause: InvokeError)
    | NullRoot

  /** How `intercept` ends: the action is invoked (after the root was
      populated with the given property values, when it was), a JSON-RPC
      response is written and `NONE` returned, or an exception escapes. */
  datatype InterceptResult =
    | Invoked(populated: Option<seq<Option<P.JavaVal>>>)
    | Responded(response: RpcResponse)
    | Thrown(error: InterceptError)

  /** `Map.get`: the value stored under `k`, or `null`. */
  function Get(data: map<string, JValue>, k: string): (r: JValue)
    ensures k !in data ==> r == JNull
  {
    if k in data then data[k] else JNull
  }

  function ErrorResponse(id: Option<JValue>, code: RpcErrorCode, message: string): RpcResponse {
    RpcResponse(id, None, Some(RpcError(Coded(code), message)))
  }

  /** `getMethod(clazz, name, parameterCount)`: the first public method of
      the class that matches, in `getMethods` order. */
  function GetMethod(u: ClassTable, cls: string, name: string, count: int): (r: Option<MethodDesc>)
    requires cls in u
    ensures r.None? <==> forall m | m in u[cls].methods :: !SignatureMatches(m, name, count)
    ensures r.Some? ==> r.value in u[cls].methods && SignatureMatches(r.value, name, count)
  {
    var r := FirstMatch(u[cls].methods, name, count);
    if r.None? then
      assert forall m | m in u[cls].methods :: !SignatureMatches(m, name, count) by {
        forall m | m in u[cls].methods ensures !SignatureMatches(m, name, count) {
          var k :| 0 <= k < |u[cls].methods| && u[cls].methods[k] == m;
        }
      }
      r
    else r
  }

  /** The conversion loop of `invoke`: argument `i` is converted for the
      method's parameter `i`, with the method as the accessor, so an array
      argument takes its component type from the method's first
      parameter. */
  function ConvertArgs(u: ClassTable, m: MethodDesc, items: seq<JValue>, i: nat): (r: Result<seq<P.JavaVal>, P.PopError>)
    requires |m.params| == |items| > 0 && i <= |items|
    ensures r.Success? ==> |r.value| == |items| - i
    ensures r.Success? ==> forall k :: i <= k < |items| ==>
      P.Convert(P.InlinePopulator, u, m.params[k], items[k], P.Accessor(m.name, m.params)) == Success(r.value[k - i])
    decreases |items| - i
  {
    if i == |items| then Success([])
    else
      var x :- P.Convert(P.InlinePopulator, u, m.params[i], items[i], P.Accessor(m.name, m.params));
      var rest :- ConvertArgs(u, m, items, i + 1);
      Success([x] + rest)
  }

  /** The conversion loop as evidently intended: argument `i` is converted
      with parameter `i` as the accessor's only parameter, so an array
      argument takes its component type from its own parameter. */
  function ConvertArgsCorrected(u: ClassTable, m: MethodDesc, items: seq<JValue>, i: nat): (r: Result<seq<P.JavaVal>, P.PopError>)
    requires |m.params| == |items| && i <= |items|
    ensures r.Success? ==> |r.value| == |items| - i
    decreases |items| - i
  {
    if i == |items| then Success([])
    else
      var x :- P.Convert(P.InlinePopulator, u, m.params[i], items[i], P.Accessor(m.name, [m.params[i]]));
      var rest :- ConvertArgsCorrected(u, m, items, i + 1);
      Success([x] + rest)
  }

  /** A method taking an `int` and then a `String[]`. */
  function IntThenStrings(): MethodDesc {
    MethodDesc("Action", "f", [Prim(IntK), ArrayT(StringT)], Some(SmdAnn("")), [None, None])
  }

  /** As written, the call `f(1, ["x"])` fails: the array argument is
      converted with the `int` parameter's (absent) component type. */
  lemma ArrayArgumentNotFirst(u: ClassTable)
    ensures ConvertArgs(u, IntThenStrings(), [JNum(1), JList([JStr("x")])], 0) == Failure(P.NullPointer)
  {
    var m, items := IntThenStrings(), [JNum(1), JList([JStr("x")])];
    assert ConvertArgs(u, m, items, 2) == Success([]);
    assert P.Convert(P.InlinePopulator, u, m.params[1], items[1], P.Accessor(m.name, m.params)) == Failure(P.NullPointer);
  }

  /** Corrected, the same call converts both arguments. */
  lemma ArrayArgumentConverted(u: ClassTable)
    ensures ConvertArgsCorrected(u, IntThenStrings(), [JNum(1), JList([JStr("x")])], 0)
      == Success([P.IntegralV(IntK, 1), P.ArrayV(StringT, [P.StrV("x")])])
  {
    var m, items := IntThenStrings(), [JNum(1), JList([JStr("x")])];
    SecondArgumentConverted(u);
    assert P.Convert(P.InlinePopulator, u, m.params[0], items[0], P.Accessor(m.name, [m.params[0]]))
      == Success(P.IntegralV(IntK, 1)) by {
      assert InRange(IntK, 1);
    }
    assert [P.IntegralV(IntK, 1)] + [P.ArrayV(StringT, [P.StrV("x")])] == [P.IntegralV(IntK, 1), P.ArrayV(StringT, [P.StrV("x")])];
  }

  lemma SecondArgumentConverted(u: ClassTable)
    ensures ConvertArgsCorrected(u, IntThenStrings(), [JNum(1), JList([JStr("x")])], 1)
      == Success([P.ArrayV(StringT, [P.StrV("x")])])
  {
    var m, items := IntThenStrings(), [JNum(1), JList([JStr("x")])];
    var acc := P.Accessor(m.name, [m.params[1]]);
    assert [P.StrV("x")] + [] == [P.StrV("x")];
    assert [P.ArrayV(StringT, [P.StrV("x")])] + [] == [P.ArrayV(StringT, [P.StrV("x")])];
    assert P.ConvertElems(P.InlinePopulator, u, StringT, [JStr("x")], 1, acc) == Success([]);
    assert P.ConvertElem(P.InlinePopulator, u, StringT, JStr("x"), acc) == Success(P.StrV("x"));
    assert P.ConvertElems(P.InlinePopulator, u, StringT, [JStr("x")], 0, acc) == Success([P.StrV("x")]);
    assert ConvertArgsCorrected(u, m, items, 2) == Success([]);
  }

  /** Corrected, argument `k` is converted for parameter `k` alone. */
  lemma {:induction false} ConvertArgsCorrectedAt(u: ClassTable, m: MethodDesc, items: seq<JValue>, i: nat, k: nat)
    requires |m.params| == |items| && i <= k < |items|
    requires ConvertArgsCorrected(u, m, items, i).Success?
    ensures var c := P.Convert(P.InlinePopulator, u, m.params[k], items[k], P.Accessor(m.name, [m.params[k]]));
      c.Success? && ConvertArgsCorrected(u, m, items, i).value[k - i] == c.value
    decreases k - i
  {
    if i < k {
      ConvertArgsCorrectedAt(u, m, items, i + 1, k);
    }
  }

  /** Corrected, every array argument becomes an array of its own
      parameter's component type, one element per list item. */
  lemma ArrayArgumentsTyped(u: ClassTable, m: MethodDesc, items: seq<JValue>, k: nat)
    requires |m.params| == |items| && k < |items| && m.params[k].ArrayT?
    requires ConvertArgsCorrected(u, m, items, 0).Success?
    ensures items[k].JList?
    ensures var a := ConvertArgsCorrected(u, m, items, 0).value[k];
      a.ArrayV? && a.component == m.params[k].component && |a.elems| == |items[k].items|
  {
    ConvertArgsCorrectedAt(u, m, items, 0, k);
    P.ArrayConverted(P.InlinePopulator, u, items[k], P.Accessor(m.name, [m.params[k]]));
  }

  /** Array conversion reads only the accessor's name and first parameter. */
  lemma {:induction false} ElemsAccessorName(u: ClassTable, comp: JType, items: seq<JValue>, j: nat, a: P.Accessor, b: P.Accessor)
    requires |a.params| > 0 && |b.params| > 0 && a.name == b.name && j <= |items|
    ensures P.ConvertElems(P.InlinePopulator, u, comp, items, j, a) == P.ConvertElems(P.InlinePopulator, u, comp, items, j, b)
    decreases |items| - j
  {
    if j < |items| {
      ElemsAccessorName(u, comp, items, j + 1, a, b);
    }
  }

  /** When no parameter after the first is an array, the loop as written
      and the corrected one agree. */
  lemma {:induction false} ConvertArgsAgree(u: ClassTable, m: MethodDesc, items: seq<JValue>, i: nat)
    requires |m.params| == |items| > 0 && i <= |items|
    requires forall k :: 0 < k < |m.params| ==> !m.params[k].ArrayT?
    ensures ConvertArgs(u, m, items, i) == ConvertArgsCorrected(u, m, items, i)
    decreases |items| - i
  {
    if i < |items| {
      ConvertArgsAgree(u, m, items, i + 1);
      var a, b := P.Accessor(m.name, m.params), P.Accessor(m.name, [m.params[i]]);
      if m.params[i].ArrayT? && items[i].JList? {
        assert a.params[0] == b.params[0];
        ElemsAccessorName(u, m.params[i].component, items[i].items, 0, a, b);
        assert P.ConvertToArray(P.InlinePopulator, u, items[i], a) == P.ConvertToArray(P.InlinePopulator, u, items[i], b);
      }
      assert P.Convert(P.InlinePopulator, u, m.params[i], items[i], a) == P.Convert(P.InlinePopulator, u, m.params[i], items[i], b);
    }
  }

  /** `Method.invoke` accepts each argument for its parameter. */
  predicate ArgsAssignable(m: MethodDesc, args: seq<P.JavaVal>)
    requires |args| == |m.params|
  {
    forall k :: 0 <= k < |args| ==> P.Assignable(m.params[k], args[k])
  }

  /** Which conversion loop `invoke` runs: the loop as written
      (`ConvertArgs`), which the program runs, or the corrected one
      (`ConvertArgsCorrected`). */
  datatype ArgLoop = AsWritten | Corrected

  /** The arguments of the call: none for an empty `params`, otherwise the
      chosen loop over all of them. */
  function ConvertAll(loop: ArgLoop, u: ClassTable, m: MethodDesc, items: seq<JValue>): (r: Result<seq<P.JavaVal>, P.PopError>)
    requires |m.params| == |items|
    ensures r.Success? ==> |r.value| == |items|
  {
    if |items| == 0 then Success([])
    else if loop == AsWritten then ConvertArgs(u, m, items, 0)
    else ConvertArgsCorrected(u, m, items, 0)
  }

  /** Calling the found method with the request's parameters. */
  function CallWith(u: ClassTable, loop: ArgLoop, call: Call, m: MethodDesc, items: seq<JValue>): (r: Result<P.JavaVal, InvokeError>)
    requires |m.params| == |items|
    ensures r.Success? ==>
      && ConvertAll(loop, u, m, items).Success?
      && ArgsAssignable(m, ConvertAll(loop, u, m, items).value)
      && call(m, ConvertAll(loop, u, m, items).value) == Success(r.value)
  {
    var args :- match ConvertAll(loop, u, m, items)
      case Success(a) => Success(a)
      case Failure(e) => Failure(ConversionError(e));
    if !ArgsAssignable(m, args) then Failure(ConversionError(P.ArgumentMismatch(m.name)))
    else
      match call(m, args)
      case Success(x) => Success(x)
      case Failure(msg) => Failure(ThrownByMethod(msg))
  }

  /** `invoke(object, data)` on a root of class `root`, converting the
      arguments with `loop`; the program is `Invoke(u, AsWritten, ...)`. */
  function Invoke(u: ClassTable, loop: ArgLoop, root: Option<string>, call: Call, data: map<string, JValue>): (r: Result<RpcResponse, InvokeError>)
    requires root.Some? ==> root.value in u
    ensures r.Failure? ==> "id" in data && data["id"] != JNull
    ensures r.Success? ==> (r.value.id.None? <==> Get(data, "id") == JNull)
    ensures r.Success? ==> (r.value.result.Some? <==> r.value.error.None?)
  {
    var idv := Get(data, "id");
    if idv.JNull? then
      Success(ErrorResponse(None, MethodNotFound, "'id' is required for JSON RPC"))
    else
      var id := Some(idv);
      if root.None? then Failure(NullObject)
      else
        var params := Get(data, "params");
        if !(params.JNull? || params.JList?) then Failure(ClassCastError)
        else
          var items := if params.JList? then params.items else [];
          var name := Get(data, "method");
          if name.JNull? then
            Success(ErrorResponse(id, MissingMethod, "'method' is required for JSON RPC"))
          else if !name.JStr? then Failure(ClassCastError)
          else
            match GetMethod(u, root.value, name.s, |items|)
            case None =>
              Success(ErrorResponse(id, MethodNotFound, "Method " + name.s + " could not be found in action class."))
            case Some(m) =>
              if |items| > 0 && |m.params| != |items| then
                Success(ErrorResponse(id, ParametersMismatch,
                  "Parameter count in request, " + IntToString(|items|) + " do not match expected parameter count for "
                  + name.s + ", " + IntToString(|m.params|)))
              else
                var x :- CallWith(u, loop, call, m, items);
                Success(RpcResponse(id, Some(x), None))
  }

  /** A request without an `id` (or with a null one) is answered with
      `METHOD_NOT_FOUND` and no id, whatever else it holds and whatever the
      root is. */
  lemma IdCheckedFirst(u: ClassTable, loop: ArgLoop, root: Option<string>, call: Call, data: map<string, JValue>)
    requires root.Some? ==> root.value in u
    requires "id" !in data || data["id"] == JNull
    ensures Invoke(u, loop, root, call, data) == Success(RpcResponse(None, None, Some(RpcError(Coded(MethodNotFound), "'id' is required for JSON RPC"))))
  {
  }

  /** Once the id is present, a missing `method` gives `MISSING_METHOD`
      and a name no method matches gives `METHOD_NOT_FOUND`, both carrying
      the request id; a `params` member that is neither null nor a list
      throws before the method name is read. */
  lemma ValidationOrder(u: ClassTable, loop: ArgLoop, cls: string, call: Call, data: map<string, JValue>)
    requires cls in u && "id" in data && data["id"] != JNull
    ensures var params := Get(data, "params");
      !(params.JNull? || params.JList?) ==> Invoke(u, loop, Some(cls), call, data) == Failure(ClassCastError)
    ensures var params := Get(data, "params");
      (params.JNull? || params.JList?) && Get(data, "method") == JNull ==>
        Invoke(u, loop, Some(cls), call, data) == Success(RpcResponse(Some(data["id"]), None, Some(RpcError(Coded(MissingMethod), "'method' is required for JSON RPC"))))
    ensures var params := Get(data, "params");
      var count := if params.JList? then |params.items| else 0;
      (params.JNull? || params.JList?) && Get(data, "method").JStr? &&
      (forall m | m in u[cls].methods :: !SignatureMatches(m, Get(data, "method").s, count)) ==>
        && Invoke(u, loop, Some(cls), call, data).Success?
        && Invoke(u, loop, Some(cls), call, data).value.id == Some(data["id"])
        && Invoke(u, loop, Some(cls), call, data).value.error.Some?
        && Invoke(u, loop, Some(cls), call, data).value.error.value.code == Coded(MethodNotFound)
  {
  }

  /** The arity check after the lookup is dead: the lookup only returns
      methods with as many parameters as the request carries, so no
      response ever reports `PARAMETERS_MISMATCH`. */
  lemma NoParametersMismatch(u: ClassTable, loop: ArgLoop, root: Option<string>, call: Call, data: map<string, JValue>)
    requires root.Some? ==> root.value in u
    requires Invoke(u, loop, root, call, data).Success?
    ensures var r := Invoke(u, loop, root, call, data).value;
      r.error.Some? ==> r.error.value.code != Coded(ParametersMismatch)
  {
  }

  /** A response carries a result exactly when no error was reported, and
      then it is what the found method returned for the arguments the
      chosen loop converted, under the request id. */
  lemma CallAnswered(u: ClassTable, loop: ArgLoop, cls: string, call: Call, data: map<string, JValue>)
    requires cls in u
    requires Invoke(u, loop, Some(cls), call, data).Success?
    ensures var r := Invoke(u, loop, Some(cls), call, data).value;
      r.result.Some? <==> r.error.None?
    ensures var r := Invoke(u, loop, Some(cls), call, data).value;
      r.result.Some? ==>
        var items := if Get(data, "params").JList? then Get(data, "params").items else [];
        && r.id == Some(data["id"])
        && Get(data, "method").JStr?
        && var m := GetMethod(u, cls, Get(data, "method").s, |items|);
        && m.Some?
        && CallWith(u, loop, call, m.value, items) == Success(r.result.value)
  {
  }

  /** When no parameter after the first is an array, the call as written
      and the corrected call agree. */
  lemma CallWithAgree(u: ClassTable, call: Call, m: MethodDesc, items: seq<JValue>)
    requires |m.params| == |items|
    requires forall k :: 0 < k < |m.params| ==> !m.params[k].ArrayT?
    ensures CallWith(u, AsWritten, call, m, items) == CallWith(u, Corrected, call, m, items)
  {
    if |items| > 0 {
      ConvertArgsAgree(u, m, items, 0);
    }
  }

  /** On a class none of whose methods takes an array after its first
      parameter, the program's `invoke` answers as the corrected one does. */
  lemma InvokeAgree(u: ClassTable, cls: string, call: Call, data: map<string, JValue>)
    requires cls in u
    requires forall m | m in u[cls].methods :: forall k :: 0 < k < |m.params| ==> !m.params[k].ArrayT?
    ensures Invoke(u, AsWritten, Some(cls), call, data) == Invoke(u, Corrected, Some(cls), call, data)
  {
    var params := Get(data, "params");
    var items := if params.JList? then params.items else [];
    var name := Get(data, "method");
    if name.JStr? {
      var found := GetMethod(u, cls, name.s, |items|);
      if found.Some? && |found.value.params| == |items| {
        CallWithAgree(u, call, found.value, items);
      }
    }
  }

  /** The program's `invoke` fails on `f(1, ["x"])` for a class whose only
      method is `f(int, String[])`, where the corrected one calls `f`. */
  lemma ArrayCallFails(u: ClassTable, call: Call)
    requires "Action" in u && u["Action"].methods == [IntThenStrings()]
    ensures var data := map["id" := JNum(7), "method" := JStr("f"), "params" := JList([JNum(1), JList([JStr("x")])])];
      Invoke(u, AsWritten, Some("Action"), call, data) == Failure(ConversionError(P.NullPointer))
  {
    var data := map["id" := JNum(7), "method" := JStr("f"), "params" := JList([JNum(1), JList([JStr("x")])])];
    var items := [JNum(1), JList([JStr("x")])];
    assert SignatureMatches(IntThenStrings(), "f", 2);
    assert GetMethod(u, "Action", "f", 2) == Some(IntThenStrings());
    ArrayArgumentNotFirst(u);
    assert ConvertAll(AsWritten, u, IntThenStrings(), items) == Failure(P.NullPointer);
  }

  /** The routing of `intercept`: the whole header is compared with the
      two media types, ignoring case. */
  datatype Route = JsonRoute | JsonRpcRoute | OtherRoute

  function RouteOf(contentType: Option<string>): (r: Route)
    ensures r == JsonRoute <==> contentType.Some? && EqualsIgnoreCase(contentType.value, "application/json")
    ensures r == JsonRpcRoute <==> contentType.Some? && EqualsIgnoreCase(contentType.value, "application/json-rpc")
  {
    if contentType.Some? && EqualsIgnoreCase(contentType.value, "application/json") then JsonRoute
    else if contentType.Some? && EqualsIgnoreCase(contentType.value, "application/json-rpc") then JsonRpcRoute
    else OtherRoute
  }

  /** The body as `JSONUtil.deserialize(request.getReader())` parses it. */
  function ParseBody(parse: string -> Option<JValue>, body: string): Option<JValue> {
    parse(Concat(JsonUtil.ReadLines(body)))
  }

  /** The `application/json` branch: populate the root from an object. */
  function PopulateRoot(u: ClassTable, root: Option<string>, body: Option<JValue>): (r: InterceptResult)
    requires root.Some? ==> root.value in u
    ensures !r.Responded?
    ensures r.Invoked? ==>
      && body.Some? && body.value.JObject? && root.Some? && r.populated.Some?
      && P.Populate(P.InlinePopulator, u, root.value, body.value.fields) == Success(r.populated.value)
  {
    if body.None? then Thrown(ParseFailed)
    else if !body.value.JObject? then Thrown(NotAnObject)
    else if root.None? then Thrown(NullRoot)
    else
      match P.Populate(P.InlinePopulator, u, root.value, body.value.fields)
      case Success(vals) => Invoked(Some(vals))
      case Failure(e) => Thrown(PopulateFailed(e))
  }

  /** The `application/json-rpc` branch with SMD enabled. */
  function Dispatch(u: ClassTable, root: Option<string>, call: Call, body: Option<JValue>): (r: InterceptResult)
    requires root.Some? ==> root.value in u
    ensures r.Invoked? <==> body.Some? && !body.value.JObject?
    ensures r.Invoked? ==> r.populated.None?
    ensures r.Responded? ==> body.Some? && body.value.JObject? && Invoke(u, AsWritten, root, call, body.value.fields) == Success(r.response)
  {
    if body.None? then Thrown(ParseFailed)
    else if !body.value.JObject? then Invoked(None)
    else
      match Invoke(u, AsWritten, root, call, body.value.fields)
      case Success(r) => Responded(r)
      case Failure(e) => Thrown(InvokeFailed(e))
  }

  /** `intercept(invocation)` for a request with the given `content-type`
      header and body. */
  function Intercept(u: ClassTable, enableSMD: bool, root: Option<string>,
                     parse: string -> Option<JValue>, call: Call,
                     contentType: Option<string>, body: string): (r: InterceptResult)
    requires root.Some? ==> root.value in u
    ensures r.Responded? ==> enableSMD && RouteOf(contentType) == JsonRpcRoute
    ensures r.Invoked? && r.populated.Some? ==> RouteOf(contentType) == JsonRoute
    ensures RouteOf(contentType) == OtherRoute ==> r == Invoked(None)
  {
    match RouteOf(contentType)
    case JsonRoute => PopulateRoot(u, root, ParseBody(parse, body))
    case JsonRpcRoute =>
      if !enableSMD then Thrown(SmdDisabled) else Dispatch(u, root, call, ParseBody(parse, body))
    case OtherRoute => Invoked(None)
  }

  /** Any content type other than the two media types, including a JSON
      one with parameters, leaves the request alone and invokes the action. */
  lemma OtherContentProceeds(u: ClassTable, enableSMD: bool, root: Option<string>,
                             parse: string -> Option<JValue>, call: Call, body: string)
    requires root.Some? ==> root.value in u
    ensures Intercept(u, enableSMD, root, parse, call, None, body) == Invoked(None)
    ensures Intercept(u, enableSMD, root, parse, call, Some("application/json; charset=UTF-8"), body) == Invoked(None)
  {
    assert !EqualsIgnoreCase("application/json; charset=UTF-8", "application/json");
    assert !EqualsIgnoreCase("application/json; charset=UTF-8", "application/json-rpc") by {
      assert ToLowerAscii("application/json; charset=UTF-8"[16]) != ToLowerAscii("application/json-rpc"[16]);
    }
  }

  /** The media types are recognised in any letter case. */
  lemma UpperCaseRecognised()
    ensures RouteOf(Some("APPLICATION/JSON")) == JsonRoute
  {
    UpperCaseJson();
  }

  lemma UpperCaseJson()
    ensures EqualsIgnoreCase("APPLICATION/JSON", "application/json")
  {
    var a, b := "APPLICATION/JSON", "application/json";
    forall i | 0 <= i < |a| ensures ToLowerAscii(a[i]) == ToLowerAscii(b[i]) {
      LowerLetter(a[i], b[i]);
    }
  }

  /** A JSON body that is not an object is refused for population; under
      JSON-RPC with SMD enabled the `INVALID_PROCEDURE_CALL` response built
      for it is dropped and the action is invoked; with SMD disabled a
      JSON-RPC request throws before its body is read. */
  lemma NonObjectBodies(u: ClassTable, root: Option<string>, parse: string -> Option<JValue>, call: Call,
                        contentType: string, body: string)
    requires root.Some? ==> root.value in u
    requires var v := ParseBody(parse, body); v.Some? && !v.value.JObject?
    ensures EqualsIgnoreCase(contentType, "application/json") ==>
      Intercept(u, true, root, parse, call, Some(contentType), body) == Thrown(NotAnObject)
    ensures EqualsIgnoreCase(contentType, "application/json-rpc") ==>
      Intercept(u, true, root, parse, call, Some(contentType), body) == Invoked(None)
    ensures EqualsIgnoreCase(contentType, "application/json-rpc") ==>
      Intercept(u, false, root, parse, call, Some(contentType), body) == Thrown(SmdDisabled)
  {
  }

  /** A JSON-RPC call that is answered writes the response and does not
      invoke the action. */
  lemma RpcAnsweredWithoutAction(u: ClassTable, root: Option<string>, parse: string -> Option<JValue>, call: Call,
                                 contentType: string, body: string)
    requires root.Some? ==> root.value in u
    requires EqualsIgnoreCase(contentType, "application/json-rpc")
    requires var v := ParseBody(parse, body); v.Some? && v.value.JObject?
    requires Invoke(u, AsWritten, root, call, ParseBody(parse, body).value.fields).Success?
    ensures Intercept(u, true, root, parse, call, Some(contentType), body)
      == Responded(Invoke(u, AsWritten, root, call, ParseBody(parse, body).value.fields).value)
  {
    assert !EqualsIgnoreCase(contentType, "application/json");
  }
}
