/** What `JSONUtil.deserialize` hands to the populator and the RPC
    dispatcher: `null`, a `Boolean`, an integral `Number`, a `String`, a
    `List` of values or a `Map` from member names to values. The parser
    that produces it is not part of this model. */
module JsonValue {
  datatype JValue =
    | JNull
    | JBool(b: bool)
    // The parser yields a `Long`; its 64-bit range is not enforced here.
    | JNum(n: int)
    | JStr(s: string)
    | JList(items: seq<JValue>)
    | JObject(fields: map<string, JValue>)
}
