/** The JSON-RPC error codes, the response the interceptors build, and
    the rule that matches a request's method name and parameter count
    against an `@SMDMethod` method. */
module Rpc {
  import opened Wrappers
  import opened JsonValue
  import opened JavaModel
  import Populator

  /** The `RPCErrorCode` enum. */
  datatype RpcErrorCode =
    | MissingMethod
    | MissingId
    | InvalidProcedureCall
    | MethodNotFound
    | ParametersMismatch

  /** `code()`: the number the constant was declared with. */
  function Code(c: RpcErrorCode): int {
    match c
    case MissingMethod => 100
    case MissingId => 100
    case InvalidProcedureCall => 0
    case MethodNotFound => 101
    case ParametersMismatch => 102
  }

  /** `message()`: the text the constant was declared with. */
  function Message(c: RpcErrorCode): string {
    match c
    case MissingMethod => "'method' parameter is missing in request"
    case MissingId => "'id' parameter is missing in request"
    case InvalidProcedureCall => "Invalid procedure call"
    case MethodNotFound => "Procedure not found"
    case ParametersMismatch => "Parameters count in request does not patch parameters count on method"
  }

  /** The constant whose message is `m`, if any. */
  function FromMessage(m: string): (r: Option<RpcErrorCode>)
    ensures r.Some? ==> Message(r.value) == m
  {
    if m == Message(MissingMethod) then Some(MissingMethod)
    else if m == Message(MissingId) then Some(MissingId)
    else if m == Message(InvalidProcedureCall) then Some(InvalidProcedureCall)
    else if m == Message(MethodNotFound) then Some(MethodNotFound)
    else if m == Message(ParametersMismatch) then Some(ParametersMismatch)
    else None
  }

  /** Every constant has its own message, so the message identifies it. */
  lemma MessageIdentifies(c: RpcErrorCode)
    ensures FromMessage(Message(c)) == Some(c)
  {
    MessageLengths();
  }

  /** The messages have pairwise different lengths. */
  lemma MessageLengths()
    ensures |Message(MissingMethod)| == 40 && |Message(MissingId)| == 36
    ensures |Message(InvalidProcedureCall)| == 22 && |Message(MethodNotFound)| == 19
    ensures |Message(ParametersMismatch)| == 69
  {
  }

  /** The codes do not identify the constant: `MISSING_METHOD` and
      `MISSING_ID` share 100, and every other pair of constants differs. */
  lemma CodesShared(a: RpcErrorCode, b: RpcErrorCode)
    ensures Code(MissingMethod) == Code(MissingId) == 100
    ensures a != b && Code(a) == Code(b) ==> {a, b} == {MissingMethod, MissingId}
  {
  }

  /** The remaining codes of the table. */
  lemma CodeTable()
    ensures Code(InvalidProcedureCall) == 0
    ensures Code(MethodNotFound) == 101
    ensures Code(ParametersMismatch) == 102
  {
  }

  /** The code an error response carries. The older interceptor also uses
      `EXCEPTION` and `SMD_DISABLED`, constants the enum shown here lacks;
      their numbers are unknown, so they stand as names of their own. */
  datatype ErrorCode = Coded(c: RpcErrorCode) | ExceptionCode | SmdDisabledCode

  datatype RpcError = RpcError(code: ErrorCode, message: string)

  /** An `RPCResponse`: the request id (kept as the parsed value whose
      `toString()` the response stores), the method's result and the
      error, each possibly unset. */
  datatype RpcResponse = RpcResponse(id: Option<JValue>, result: Option<Populator.JavaVal>, error: Option<RpcError>)

  /** The signature test of `getMethod` and `checkSMDMethodSignature`: an
      annotated method whose arity is the request's parameter count, and
      whose name is the request's when it has no alias, or whose alias is. */
  predicate SignatureMatches(m: MethodDesc, name: string, count: int) {
    && m.smd.Some?
    && |m.params| == count
    && ((|m.smd.value.alias| == 0 && m.name == name) || m.smd.value.alias == name)
  }

  /** `ms[k]` matches and no method before it does. */
  predicate FirstMatchAt(ms: seq<MethodDesc>, name: string, count: int, k: int) {
    && 0 <= k < |ms|
    && SignatureMatches(ms[k], name, count)
    && forall j :: 0 <= j < k ==> !SignatureMatches(ms[j], name, count)
  }

  /** The first method of `ms` that matches, scanning in order. */
  function FirstMatch(ms: seq<MethodDesc>, name: string, count: int): (r: Option<MethodDesc>)
    ensures r.None? <==> forall k :: 0 <= k < |ms| ==> !SignatureMatches(ms[k], name, count)
    ensures r.Some? ==> exists k :: FirstMatchAt(ms, name, count, k) && ms[k] == r.value
  {
    if |ms| == 0 then None
    else if SignatureMatches(ms[0], name, count) then
      assert FirstMatchAt(ms, name, count, 0);
      Some(ms[0])
    else
      var r := FirstMatch(ms[1..], name, count);
      if r.Some? then
        var k :| FirstMatchAt(ms[1..], name, count, k) && ms[1..][k] == r.value;
        assert FirstMatchAt(ms, name, count, k + 1);
        r
      else r
  }

  /** A method with a non-empty alias different from its Java name cannot
      be called by its Java name; it is called by its alias. */
  lemma AliasHidesName(m: MethodDesc)
    requires m.smd.Some? && |m.smd.value.alias| > 0 && m.smd.value.alias != m.name
    ensures !SignatureMatches(m, m.name, |m.params|)
    ensures SignatureMatches(m, m.smd.value.alias, |m.params|)
  {
  }

  /** Calling `method.invoke`: the method's return value, or the message of
      what it threw. The action's code is not part of this model. */
  type Call = (MethodDesc, seq<Populator.JavaVal>) -> Result<Populator.JavaVal, string>
}
