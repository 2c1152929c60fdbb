/** `JSONResult` of the older revision: exclude patterns only, the body
    optionally wrapped in a comment, and the content type naming the
    encoding. Its private `asList` is `JsonUtil.AsList`, and its
    `setExcludeProperties` and `getEncoding` are those of `JsonResult`; what
    differs is the initial encoding. */
module LegacyJsonResult {
  import opened Wrappers
  import opened Text
  import JsonUtil
  import JsonResult

  /** `defaultEncoding` starts out null. */
  const InitialEncoding: Option<string> := None

  /** What `execute` writes: the body and the `Content-Type` header. */
  datatype Written = Written(body: string, contentType: string)

  /** `execute(invocation)` once the root has been serialised to `json`. */
  function Execute(json: string, wrapWithComments: bool, defaultEncoding: Option<string>,
                   fileEncoding: Option<string>): (r: Written)
    ensures !wrapWithComments ==> r.body == json
    ensures wrapWithComments ==>
      && |r.body| == |json| + 6 && StartsWith(r.body, "/* ") && EndsWith(r.body, " */")
      && r.body[3..|r.body| - 3] == json
    ensures StartsWith(r.contentType, "application/json;charset=")
    ensures EndsWith(r.contentType, JsonResult.GetEncoding(defaultEncoding, fileEncoding))
  {
    var enc := JsonResult.GetEncoding(defaultEncoding, fileEncoding);
    JsonUtil.ResponseWrapped(Some(json));
    var ct := JsonUtil.ContentType(false, enc);
    assert ct[..25] == "application/json;charset=";
    assert ct[|ct| - |enc|..] == enc;
    Written(JsonUtil.ResponseText(Some(json), wrapWithComments), ct)
  }

  /** Without a configured encoding the platform's `file.encoding` is
      written, and `UTF-8` when that is unset too; the current revision
      starts from ISO-8859-1 instead. */
  lemma PlatformEncodingUsed(json: string, wrap: bool, fileEncoding: Option<string>)
    ensures var ct := Execute(json, wrap, InitialEncoding, fileEncoding).contentType;
      && (fileEncoding.Some? ==> EndsWith(ct, fileEncoding.value))
      && (fileEncoding.None? ==> EndsWith(ct, "UTF-8"))
    ensures JsonResult.GetEncoding(JsonResult.InitialEncoding, fileEncoding) == "ISO-8859-1"
  {
  }
}
