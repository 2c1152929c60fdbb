/** `JSONUtil`: the comma-list parser used for the result and interceptor
    settings, the joining of request lines before parsing, the response
    text and content type, the `Accept-Encoding` test, and the walk over a
    class's supertypes that collects its `@SMDMethod` methods. The two
    revisions agree on the parts they share. */
module JsonUtil {
  import opened Wrappers
  import opened Text
  import opened JavaModel
  import opened Visited

  /** The non-empty trimmed pieces, in order. */
  function NonEmptyTrimmed(ps: seq<string>): (r: seq<string>)
    ensures forall k :: 0 <= k < |r| ==> |r[k]| > 0 && !IsTrimmable(r[k][0]) && !IsTrimmable(r[k][|r[k]| - 1])
  {
    if |ps| == 0 then []
    else
      var t := Trim(ps[0]);
      if |t| > 0 then [t] + NonEmptyTrimmed(ps[1..]) else NonEmptyTrimmed(ps[1..])
  }

  /** The pieces are kept in order: the result for a concatenation is the
      results for its parts, one after the other, and a single piece gives
      its trimmed text unless that is empty. */
  lemma {:induction false} NonEmptyTrimmedPieces(a: seq<string>, b: seq<string>)
    ensures NonEmptyTrimmed(a + b) == NonEmptyTrimmed(a) + NonEmptyTrimmed(b)
    ensures |a| == 1 ==> NonEmptyTrimmed(a) == if |Trim(a[0])| == 0 then [] else [Trim(a[0])]
    decreases |a|
  {
    if |a| == 0 {
      assert a + b == b;
    } else {
      assert (a + b)[1..] == a[1..] + b;
      NonEmptyTrimmedPieces(a[1..], b);
      if |a| == 1 {
        assert NonEmptyTrimmed(a[1..]) == [];
      }
    }
  }

  /** `asList(commaDelim)`: `None` (Java's null) for a null or blank
      string, otherwise the non-empty trimmed pieces between commas. */
  function AsList(s: Option<string>): (r: Option<seq<string>>)
    ensures r.None? <==> s.None? || Blank(s.value)
  {
    if s.None? || |Trim(s.value)| == 0 then None
    else Some(NonEmptyTrimmed(JavaSplit(s.value, ",")))
  }

  /** Every character of the trimmed string comes from the string. */
  lemma TrimKeepsChars(p: string)
    ensures forall x :: x in Trim(p) ==> x in p
  {
    var t := Trim(p);
    var a := LeadingTrimmed(p);
    forall x | x in t ensures x in p {
      var i :| 0 <= i < |t| && t[i] == x;
      assert p[a + i] == x;
    }
  }

  lemma {:induction false} NonEmptyTrimmedNoComma(ps: seq<string>)
    requires forall k :: 0 <= k < |ps| ==> ',' !in ps[k]
    ensures forall k :: 0 <= k < |NonEmptyTrimmed(ps)| ==> ',' !in NonEmptyTrimmed(ps)[k]
    decreases |ps|
  {
    if |ps| > 0 {
      NonEmptyTrimmedNoComma(ps[1..]);
      TrimKeepsChars(ps[0]);
    }
  }

  /** The pieces `split(",")` returns hold no comma. */
  lemma JavaSplitNoComma(s: string)
    ensures forall k :: 0 <= k < |JavaSplit(s, ",")| ==> ',' !in JavaSplit(s, ",")[k]
  {
    var ps := JavaSplit(s, ",");
    SplitOnPiecesFree(s, ",");
    ContainsChar(s, ',');
    assert [','] == ",";
    forall k | 0 <= k < |ps| ensures ',' !in ps[k] {
      if Contains(s, ",") {
        assert ps[k] == SplitOn(s, ",")[k];
      }
      ContainsChar(ps[k], ',');
    }
  }

  /** Every item `asList` returns is non-empty, has no blank at either end
      and holds no comma. */
  lemma AsListItems(s: string)
    requires AsList(Some(s)).Some?
    ensures forall k :: 0 <= k < |AsList(Some(s)).value| ==>
      var x := AsList(Some(s)).value[k];
      |x| > 0 && !IsTrimmable(x[0]) && !IsTrimmable(x[|x| - 1]) && ',' !in x
  {
    JavaSplitNoComma(s);
    NonEmptyTrimmedNoComma(JavaSplit(s, ","));
  }

  /** Splitting comma-joined items, none empty and none holding a comma,
      gives the items back. */
  lemma JavaSplitJoin(items: seq<string>)
    requires |items| > 0
    requires forall k :: 0 <= k < |items| ==> |items[k]| > 0 && ',' !in items[k]
    ensures JavaSplit(Join(",", items), ",") == items
  {
    var s := Join(",", items);
    SplitOnJoin(items, ',');
    assert [','] == ",";
    if |items| == 1 {
      ContainsChar(s, ',');
    } else {
      assert s == items[0] + "," + Join(",", items[1..]);
      assert s[|items[0]|] == ',';
      ContainsChar(s, ',');
      var r := DropTrailingEmpty(items);
      assert items[|items| - 1] != "";
      assert |r| == |items|;
    }
  }

  /** An item list written out with commas is read back unchanged: `asList`
      inverts joining with "," for non-empty items without commas or
      blanks at their ends. */
  lemma AsListJoin(items: seq<string>)
    requires |items| > 0
    requires forall k :: 0 <= k < |items| ==>
      var x := items[k]; |x| > 0 && !IsTrimmable(x[0]) && !IsTrimmable(x[|x| - 1]) && ',' !in x
    ensures AsList(Some(Join(",", items))) == Some(items)
  {
    var s := Join(",", items);
    JavaSplitJoin(items);
    JoinStartsWith(items);
    assert !IsTrimmable(s[0]);
    NonEmptyTrimmedKeeps(items);
  }

  lemma JoinStartsWith(items: seq<string>)
    requires |items| > 0 && |items[0]| > 0
    ensures |Join(",", items)| > 0 && Join(",", items)[0] == items[0][0]
  {
  }

  lemma {:induction false} NonEmptyTrimmedKeeps(items: seq<string>)
    requires forall k :: 0 <= k < |items| ==>
      var x := items[k]; |x| > 0 && !IsTrimmable(x[0]) && !IsTrimmable(x[|x| - 1])
    ensures NonEmptyTrimmed(items) == items
    decreases |items|
  {
    if |items| > 0 {
      TrimIdentity(items[0]);
      NonEmptyTrimmedKeeps(items[1..]);
      assert items == [items[0]] + items[1..];
    }
  }

  predicate IsTerminator(c: char) {
    c == '\n' || c == '\r'
  }

  /** The index of the first line terminator at or after `i`, or `|s|`. */
  function LineEnd(s: string, i: nat): (r: nat)
    requires i <= |s|
    ensures i <= r <= |s| && (r < |s| ==> IsTerminator(s[r]))
    ensures forall k :: i <= k < r ==> !IsTerminator(s[k])
    decreases |s| - i
  {
    if i == |s| || IsTerminator(s[i]) then i else LineEnd(s, i + 1)
  }

  /** The index just past the one line break starting at `e`: "\r\n"
      counts as one break, and a blank line after it is a line of its own. */
  function BreakEnd(s: string, e: nat): (r: nat)
    requires e < |s| && IsTerminator(s[e])
    ensures e < r <= |s| && forall k :: e <= k < r ==> IsTerminator(s[k])
    ensures r == e + 1 || r == e + 2
    ensures r == e + 2 <==> s[e] == '\r' && e + 1 < |s| && s[e + 1] == '\n'
  {
    if s[e] == '\r' && e + 1 < |s| && s[e + 1] == '\n' then e + 2 else e + 1
  }

  /** The lines `BufferedReader.readLine` returns until it returns null: a
      line ends at "\n", "\r" or "\r\n", and a last line needs no
      terminator. */
  function ReadLines(s: string): (r: seq<string>)
    ensures |r| <= |s|
    ensures |s| > 0 ==> |r| > 0 && StartsWith(s, r[0])
    decreases |s|
  {
    if |s| == 0 then []
    else
      var e := LineEnd(s, 0);
      if e == |s| then [s]
      else [s[..e]] + ReadLines(s[BreakEnd(s, e)..])
  }

  /** `s` without its line terminators. */
  function StripTerminators(s: string): string {
    if |s| == 0 then ""
    else (if IsTerminator(s[0]) then "" else [s[0]]) + StripTerminators(s[1..])
  }

  lemma {:induction false} StripAppend(a: string, b: string)
    ensures StripTerminators(a + b) == StripTerminators(a) + StripTerminators(b)
    decreases |a|
  {
    if |a| == 0 {
      assert a + b == b;
    } else {
      assert (a + b)[1..] == a[1..] + b;
      StripAppend(a[1..], b);
    }
  }

  lemma {:induction false} StripFree(a: string)
    requires forall k :: 0 <= k < |a| ==> !IsTerminator(a[k])
    ensures StripTerminators(a) == a
    decreases |a|
  {
    if |a| > 0 {
      StripFree(a[1..]);
      assert a == [a[0]] + a[1..];
    }
  }

  lemma {:induction false} StripAll(a: string)
    requires forall k :: 0 <= k < |a| ==> IsTerminator(a[k])
    ensures StripTerminators(a) == ""
    decreases |a|
  {
    if |a| > 0 {
      StripAll(a[1..]);
    }
  }

  lemma ConcatCons(x: string, rest: seq<string>)
    ensures Concat([x] + rest) == x + Concat(rest)
  {
    assert ([x] + rest)[1..] == rest;
  }

  /** The text `deserialize(Reader)` hands to the parser: the lines read
      back to back, which is the input with every line terminator removed. */
  lemma {:induction false} ReadLinesJoined(s: string)
    ensures Concat(ReadLines(s)) == StripTerminators(s)
    decreases |s|
  {
    if |s| > 0 {
      var e := LineEnd(s, 0);
      if e == |s| {
        StripFree(s);
        ConcatCons(s, []);
      } else {
        var n := BreakEnd(s, e);
        var line, rest := s[..e], s[n..];
        ReadLinesJoined(rest);
        assert ReadLines(s) == [line] + ReadLines(rest);
        ConcatCons(line, ReadLines(rest));
        StripLine(s, e, n);
      }
    }
  }

  /** Removing the terminators from a line, its break and the rest leaves
      the line followed by the rest with its terminators removed. */
  lemma StripLine(s: string, e: nat, n: nat)
    requires e < n <= |s|
    requires forall k :: 0 <= k < e ==> !IsTerminator(s[k])
    requires forall k :: e <= k < n ==> IsTerminator(s[k])
    ensures StripTerminators(s) == s[..e] + StripTerminators(s[n..])
  {
    var rest := StripTerminators(s[n..]);
    StripSplit(s, e, n);
    StripPrefixFree(s, e);
    StripBreak(s, e, n);
    assert "" + rest == rest;
  }

  lemma StripSplit(s: string, e: nat, n: nat)
    requires e <= n <= |s|
    ensures StripTerminators(s) == StripTerminators(s[..e]) + (StripTerminators(s[e..n]) + StripTerminators(s[n..]))
  {
    SliceThree(s, e, n);
    StripThree(s[..e], s[e..n], s[n..]);
  }

  lemma SliceThree(s: string, e: nat, n: nat)
    requires e <= n <= |s|
    ensures s == s[..e] + (s[e..n] + s[n..])
  {
  }

  lemma StripThree(a: string, b: string, c: string)
    ensures StripTerminators(a + (b + c)) == StripTerminators(a) + (StripTerminators(b) + StripTerminators(c))
  {
    StripAppend(b, c);
    StripAppend(a, b + c);
  }

  lemma StripPrefixFree(s: string, e: nat)
    requires e <= |s|
    requires forall k :: 0 <= k < e ==> !IsTerminator(s[k])
    ensures StripTerminators(s[..e]) == s[..e]
  {
    StripFree(s[..e]);
  }

  lemma StripBreak(s: string, e: nat, n: nat)
    requires e <= n <= |s|
    requires forall k :: e <= k < n ==> IsTerminator(s[k])
    ensures StripTerminators(s[e..n]) == ""
  {
    StripAll(s[e..n]);
  }

  /** No line returned by `readLine` holds a terminator. */
  lemma {:induction false} ReadLinesNoTerminator(s: string)
    ensures forall k, j :: 0 <= k < |ReadLines(s)| && 0 <= j < |ReadLines(s)[k]| ==> !IsTerminator(ReadLines(s)[k][j])
    decreases |s|
  {
    if |s| > 0 {
      var e := LineEnd(s, 0);
      if e < |s| {
        ReadLinesNoTerminator(s[BreakEnd(s, e)..]);
      }
    }
  }

  /** The response body of `writeJSONToResponse`: the JSON text, empty
      for null, wrapped in a comment when asked. */
  function ResponseText(json: Option<string>, wrapWithComments: bool): (r: string)
    ensures wrapWithComments ==> StartsWith(r, "/* ") && EndsWith(r, " */")
    ensures json.None? && !wrapWithComments ==> r == ""
  {
    var j := if json.Some? then json.value else "";
    if wrapWithComments then "/* " + j + " */" else j
  }

  /** A wrapped body is a block comment enclosing exactly the JSON text. */
  lemma ResponseWrapped(json: Option<string>)
    ensures var r := ResponseText(json, true);
      var j := if json.Some? then json.value else "";
      && StartsWith(r, "/* ") && EndsWith(r, " */") && r[3..|r| - 3] == j
      && ResponseText(json, false) == j
  {
  }

  /** The content type `writeJSONToResponse` sets. */
  function ContentType(smd: bool, encoding: string): (r: string)
    ensures StartsWith(r, "application/json") && EndsWith(r, ";charset=" + encoding)
  {
    (if smd then "application/json-rpc;charset=" else "application/json;charset=") + encoding
  }

  /** The content type names the JSON-RPC media type exactly for SMD
      responses and ends with the encoding as its charset. */
  lemma ContentTypeParts(smd: bool, encoding: string)
    ensures var r := ContentType(smd, encoding);
      && StartsWith(r, "application/json")
      && (smd <==> StartsWith(r, "application/json-rpc"))
      && EndsWith(r, ";charset=" + encoding)
  {
    var r := ContentType(smd, encoding);
    if !smd {
      assert r[16] == ';';
    }
    assert r[|r| - |";charset=" + encoding|..] == ";charset=" + encoding;
  }

  /** `isGzipInRequest`, given the `Accept-Encoding` header. */
  function IsGzipInRequest(acceptEncoding: Option<string>): (r: bool)
    ensures r <==> acceptEncoding.Some? && Contains(acceptEncoding.value, "gzip")
  {
    acceptEncoding.Some? && IndexOf(acceptEncoding.value, "gzip").Some?
  }

  /** The JSONP function name of a request: the value of the request
      parameter named by `callbackParameter`, when both are non-empty.
      `param` stands for `request.getParameter`. */
  function CallbackName(callbackParameter: Option<string>, param: string -> Option<string>): (r: Option<string>)
    ensures r.Some? ==> |r.value| > 0
  {
    if callbackParameter.None? || |callbackParameter.value| == 0 then None
    else
      var name := param(callbackParameter.value);
      if name.Some? && |name.value| > 0 then name else None
  }

  /** `addCallbackIfApplicable(request, json)`, which the older
      interceptor and the current result define alike: the JSON text as a
      call of the named function, or unchanged. */
  function AddCallback(callbackParameter: Option<string>, param: string -> Option<string>, json: string): (r: string)
    ensures CallbackName(callbackParameter, param).None? ==> r == json
    ensures CallbackName(callbackParameter, param).Some? ==>
      var n := CallbackName(callbackParameter, param).value;
      && StartsWith(r, n + "(") && EndsWith(r, ")") && |r| == |n| + |json| + 2
  {
    var n := CallbackName(callbackParameter, param);
    if n.None? then json else n.value + "(" + json + ")"
  }

  /** The JSON text is exactly what lies between the parentheses of the
      call, so removing the call gives it back. */
  lemma CallbackEnclosesJson(callbackParameter: Option<string>, param: string -> Option<string>, json: string)
    requires CallbackName(callbackParameter, param).Some?
    ensures var n := CallbackName(callbackParameter, param).value;
      var r := AddCallback(callbackParameter, param, json);
      r[|n| + 1..|r| - 1] == json
  {
  }

  /** A request without the parameter, or with an empty one, is answered
      with the plain JSON text. */
  lemma NoCallbackWithoutParameter(callbackParameter: string, param: string -> Option<string>, json: string)
    requires param(callbackParameter).None? || param(callbackParameter) == Some("")
    ensures AddCallback(Some(callbackParameter), param, json) == json
  {
  }

  /** `r` is `vis` with classes appended. */
  predicate Extends(vis: seq<string>, r: seq<string>) {
    |vis| <= |r| && r[..|vis|] == vis
  }

  predicate NoDuplicates<T(==)>(s: seq<T>) {
    forall i, j :: 0 <= i < j < |s| ==> s[i] != s[j]
  }

  /** The visitor accepted every class from index `from` up to `to`. */
  predicate AllAccepted(visit: string -> bool, s: seq<string>, from: nat, to: nat)
    requires to <= |s|
  {
    forall k :: from <= k < to ==> visit(s[k])
  }

  /** What a walk that started from the visited list `vis` reports: `true`
      when the visitor accepted every class it added, `false` when it
      stopped right after the one class the visitor refused. */
  predicate Outcome(visit: string -> bool, vis: seq<string>, r: (bool, seq<string>))
    requires |vis| <= |r.1|
  {
    if r.0 then AllAccepted(visit, r.1, |vis|, |r.1|)
    else |r.1| > |vis| && !visit(r.1[|r.1| - 1]) && AllAccepted(visit, r.1, |vis|, |r.1| - 1)
  }

  lemma ExtendsShrinks(u: ClassTable, vis: seq<string>, r: seq<string>)
    requires Extends(vis, r)
    ensures Unvisited(u, r) <= Unvisited(u, vis)
  {
    forall x | x in vis ensures x in r {
      var k :| 0 <= k < |vis| && vis[k] == x;
      assert r[k] == x;
    }
  }

  /** Chaining two walks: the first accepted all it added, the second
      reports its own outcome, which is then the outcome of both. */
  lemma OutcomeChain(visit: string -> bool, vis: seq<string>, mid: seq<string>, r: (bool, seq<string>))
    requires Extends(vis, mid) && Extends(mid, r.1)
    requires AllAccepted(visit, mid, |vis|, |mid|) && Outcome(visit, mid, r)
    ensures Outcome(visit, vis, r)
  {
    forall k | |vis| <= k < |mid| ensures r.1[k] == mid[k] {
      assert r.1[..|mid|][k] == mid[k];
    }
  }

  lemma ExtendsTrans(a: seq<string>, b: seq<string>, c: seq<string>)
    requires Extends(a, b) && Extends(b, c)
    ensures Extends(a, c)
  {
    assert c[..|a|] == c[..|b|][..|a|];
  }

  lemma ExtendsKeeps(a: seq<string>, b: seq<string>, x: string)
    requires Extends(a, b) && x in a
    ensures x in b
  {
    var k :| 0 <= k < |a| && a[k] == x;
    assert b[..|a|][k] == b[k];
  }

  /** `visitUniqueInterfaces(thisClass, visitor, classesVisited)`: whether
      the walk may go on, and the visited list afterwards. A class is
      recorded before the visitor sees it; then come its interfaces left to
      right, then its superclass unless that is `Object`. */
  function VisitUnique(u: ClassTable, visit: string -> bool, c: string, vis: seq<string>): (r: (bool, seq<string>))
    requires Closed(u) && c in u
    ensures Extends(vis, r.1) && c in r.1
    ensures forall k :: |vis| <= k < |r.1| ==> r.1[k] in u
    decreases Unvisited(u, vis), 0, 0
  {
    if c in vis then (true, vis)
    else
      var vis1 := vis + [c];
      if !visit(c) then (false, vis1)
      else
        PushShrinks(u, vis, c);
        var r2 := VisitIfaces(u, visit, u[c].interfaces, 0, vis1);
        ExtendsTrans(vis, vis1, r2.1);
        ExtendsKeeps(vis1, r2.1, c);
        if !r2.0 then r2
        else if u[c].superclass.Some? && u[c].superclass.value != ObjectClass then
          ExtendsShrinks(u, vis1, r2.1);
          var r := VisitUnique(u, visit, u[c].superclass.value, r2.1);
          ExtendsTrans(vis, r2.1, r.1);
          ExtendsKeeps(r2.1, r.1, c);
          r
        else r2
  }

  /** The interface loop of `visitUniqueInterfaces` from index `idx` on. */
  function VisitIfaces(u: ClassTable, visit: string -> bool, ifaces: seq<string>, idx: nat, vis: seq<string>): (r: (bool, seq<string>))
    requires Closed(u) && idx <= |ifaces| && forall i | i in ifaces :: i in u
    ensures Extends(vis, r.1)
    ensures forall k :: |vis| <= k < |r.1| ==> r.1[k] in u
    decreases Unvisited(u, vis), 1, |ifaces| - idx
  {
    if idx == |ifaces| then (true, vis)
    else
      var r1 := VisitUnique(u, visit, ifaces[idx], vis);
      if !r1.0 then r1
      else
        ExtendsShrinks(u, vis, r1.1);
        var r := VisitIfaces(u, visit, ifaces, idx + 1, r1.1);
        ExtendsTrans(vis, r1.1, r.1);
        r
  }

  /** Element `k` of an extension, for `k` inside the original. */
  lemma ExtendsAt(a: seq<string>, b: seq<string>, k: nat)
    requires Extends(a, b) && k < |a|
    ensures b[k] == a[k]
  {
    assert b[..|a|][k] == b[k];
  }

  lemma IfacesKept(ifaces: seq<string>, a: seq<string>, b: seq<string>)
    requires Extends(a, b) && forall i | i in ifaces :: i in a
    ensures forall i | i in ifaces :: i in b
  {
    forall i | i in ifaces ensures i in b {
      ExtendsKeeps(a, b, i);
    }
  }

  lemma PushNoDuplicates(vis: seq<string>, c: string)
    requires NoDuplicates(vis) && c !in vis
    ensures NoDuplicates(vis + [c])
  {
  }

  /** The walk from an unvisited class records that class first, and it
      records no class twice. */
  lemma {:induction false} VisitUniqueDistinct(u: ClassTable, visit: string -> bool, c: string, vis: seq<string>)
    requires Closed(u) && c in u
    ensures var r := VisitUnique(u, visit, c, vis);
      && (c !in vis ==> |r.1| > |vis| && r.1[|vis|] == c)
      && (NoDuplicates(vis) ==> NoDuplicates(r.1))
    decreases Unvisited(u, vis), 0, 0
  {
    if c !in vis {
      var vis1 := vis + [c];
      if NoDuplicates(vis) {
        PushNoDuplicates(vis, c);
      }
      if visit(c) {
        PushShrinks(u, vis, c);
        var r2 := VisitIfaces(u, visit, u[c].interfaces, 0, vis1);
        VisitIfacesDistinct(u, visit, u[c].interfaces, 0, vis1);
        ExtendsAt(vis1, r2.1, |vis|);
        if r2.0 && u[c].superclass.Some? && u[c].superclass.value != ObjectClass {
          ExtendsShrinks(u, vis1, r2.1);
          var r := VisitUnique(u, visit, u[c].superclass.value, r2.1);
          VisitUniqueDistinct(u, visit, u[c].superclass.value, r2.1);
          ExtendsAt(r2.1, r.1, |vis|);
        }
      }
    }
  }

  lemma {:induction false} VisitIfacesDistinct(u: ClassTable, visit: string -> bool, ifaces: seq<string>, idx: nat, vis: seq<string>)
    requires Closed(u) && idx <= |ifaces| && forall i | i in ifaces :: i in u
    ensures NoDuplicates(vis) ==> NoDuplicates(VisitIfaces(u, visit, ifaces, idx, vis).1)
    decreases Unvisited(u, vis), 1, |ifaces| - idx
  {
    if idx < |ifaces| {
      var r1 := VisitUnique(u, visit, ifaces[idx], vis);
      VisitUniqueDistinct(u, visit, ifaces[idx], vis);
      if r1.0 {
        ExtendsShrinks(u, vis, r1.1);
        VisitIfacesDistinct(u, visit, ifaces, idx + 1, r1.1);
      }
    }
  }

  /** The walk reports `true` exactly when the visitor accepted every class
      it recorded, and on `false` it stops right after the refused class. */
  lemma {:induction false} VisitUniqueOutcome(u: ClassTable, visit: string -> bool, c: string, vis: seq<string>)
    requires Closed(u) && c in u
    ensures Outcome(visit, vis, VisitUnique(u, visit, c, vis))
    decreases Unvisited(u, vis), 0, 0
  {
    if c !in vis && visit(c) {
      var vis1 := vis + [c];
      PushShrinks(u, vis, c);
      var r2 := VisitIfaces(u, visit, u[c].interfaces, 0, vis1);
      VisitIfacesOutcome(u, visit, u[c].interfaces, 0, vis1);
      OutcomeChain(visit, vis, vis1, r2);
      if r2.0 && u[c].superclass.Some? && u[c].superclass.value != ObjectClass {
        ExtendsShrinks(u, vis1, r2.1);
        var r := VisitUnique(u, visit, u[c].superclass.value, r2.1);
        VisitUniqueOutcome(u, visit, u[c].superclass.value, r2.1);
        OutcomeChain(visit, vis, r2.1, r);
      }
    }
  }

  lemma {:induction false} VisitIfacesOutcome(u: ClassTable, visit: string -> bool, ifaces: seq<string>, idx: nat, vis: seq<string>)
    requires Closed(u) && idx <= |ifaces| && forall i | i in ifaces :: i in u
    ensures Outcome(visit, vis, VisitIfaces(u, visit, ifaces, idx, vis))
    decreases Unvisited(u, vis), 1, |ifaces| - idx
  {
    if idx < |ifaces| {
      var r1 := VisitUnique(u, visit, ifaces[idx], vis);
      VisitUniqueOutcome(u, visit, ifaces[idx], vis);
      if r1.0 {
        ExtendsShrinks(u, vis, r1.1);
        var r := VisitIfaces(u, visit, ifaces, idx + 1, r1.1);
        VisitIfacesOutcome(u, visit, ifaces, idx + 1, r1.1);
        OutcomeChain(visit, vis, r1.1, r);
      }
    }
  }

  /** A walk that completes from an unvisited class has recorded every
      direct interface of it and its superclass, unless that is `Object`. */
  lemma {:induction false} VisitUniqueReaches(u: ClassTable, visit: string -> bool, c: string, vis: seq<string>)
    requires Closed(u) && c in u
    ensures var r := VisitUnique(u, visit, c, vis);
      r.0 && c !in vis ==>
        && (forall i | i in u[c].interfaces :: i in r.1)
        && (u[c].superclass.Some? && u[c].superclass.value != ObjectClass ==> u[c].superclass.value in r.1)
    decreases Unvisited(u, vis), 0, 0
  {
    if c !in vis && visit(c) {
      var vis1 := vis + [c];
      PushShrinks(u, vis, c);
      var r2 := VisitIfaces(u, visit, u[c].interfaces, 0, vis1);
      VisitIfacesReaches(u, visit, u[c].interfaces, 0, vis1);
      if r2.0 && u[c].superclass.Some? && u[c].superclass.value != ObjectClass {
        ExtendsShrinks(u, vis1, r2.1);
        var r := VisitUnique(u, visit, u[c].superclass.value, r2.1);
        if r.0 {
          IfacesKept(u[c].interfaces, r2.1, r.1);
        }
      }
    }
  }

  lemma {:induction false} VisitIfacesReaches(u: ClassTable, visit: string -> bool, ifaces: seq<string>, idx: nat, vis: seq<string>)
    requires Closed(u) && idx <= |ifaces| && forall i | i in ifaces :: i in u
    ensures var r := VisitIfaces(u, visit, ifaces, idx, vis);
      r.0 ==> forall k :: idx <= k < |ifaces| ==> ifaces[k] in r.1
    decreases Unvisited(u, vis), 1, |ifaces| - idx
  {
    if idx < |ifaces| {
      var r1 := VisitUnique(u, visit, ifaces[idx], vis);
      if r1.0 {
        ExtendsShrinks(u, vis, r1.1);
        var r := VisitIfaces(u, visit, ifaces, idx + 1, r1.1);
        VisitIfacesReaches(u, visit, ifaces, idx + 1, r1.1);
        ExtendsKeeps(r1.1, r.1, ifaces[idx]);
      }
    }
  }

  /** `visitInterfaces(aClass, visitor)`: the walk from `aClass` with
      nothing visited yet. */
  function VisitInterfaces(u: ClassTable, visit: string -> bool, c: string): (r: (bool, seq<string>))
    requires Closed(u) && c in u
    ensures |r.1| > 0 && r.1[0] == c && NoDuplicates(r.1)
    ensures Outcome(visit, [], r)
  {
    VisitUniqueDistinct(u, visit, c, []);
    VisitUniqueOutcome(u, visit, c, []);
    VisitUnique(u, visit, c, [])
  }

  /** A visitor that accepts every class never stops the walk. */
  lemma AcceptingVisitorCompletes(u: ClassTable, c: string)
    requires Closed(u) && c in u
    ensures VisitInterfaces(u, _ => true, c).0
  {
  }

  /** The classes the listing scans: `aClass` and its supertypes in visiting
      order. */
  function SupertypeOrder(u: ClassTable, c: string): (r: seq<string>)
    requires Closed(u) && c in u
    ensures |r| > 0 && r[0] == c && NoDuplicates(r)
    ensures forall x | x in r :: x in u
  {
    VisitInterfaces(u, _ => true, c).1
  }

  /** `methods` with an `@SMDMethod` annotation, in order. */
  function Annotated(ms: seq<MethodDesc>): (r: seq<MethodDesc>)
    ensures forall m :: m in r <==> m in ms && m.smd.Some?
  {
    if |ms| == 0 then []
    else if ms[0].smd.Some? then [ms[0]] + Annotated(ms[1..])
    else Annotated(ms[1..])
  }

  /** The annotated methods are kept in order: the result for a
      concatenation is the results for its parts, one after the other, and
      a single method is kept exactly when it is annotated. */
  lemma {:induction false} AnnotatedInOrder(a: seq<MethodDesc>, b: seq<MethodDesc>)
    ensures Annotated(a + b) == Annotated(a) + Annotated(b)
    ensures |a| == 1 ==> Annotated(a) == if a[0].smd.Some? then a else []
    decreases |a|
  {
    if |a| == 0 {
      assert a + b == b;
    } else {
      assert (a + b)[1..] == a[1..] + b;
      AnnotatedInOrder(a[1..], b);
      if |a| == 1 {
        assert Annotated(a[1..]) == [];
      }
    }
  }

  /** The visitor of `listSMDMethods`: append each annotated method of
      `ms` that the list does not already hold. */
  function AddNew(acc: seq<MethodDesc>, ms: seq<MethodDesc>): (r: seq<MethodDesc>)
    ensures |acc| <= |r| && r[..|acc|] == acc
    ensures forall m :: m in r <==> m in acc || (m in ms && m.smd.Some?)
    ensures NoDuplicates(acc) ==> NoDuplicates(r)
    decreases |ms|
  {
    if |ms| == 0 then acc
    else AddNew(if ms[0].smd.Some? && ms[0] !in acc then acc + [ms[0]] else acc, ms[1..])
  }

  /** Appending the methods of `a + b` is appending those of `a`, then
      those of `b`; one method is appended exactly when it is annotated and
      not yet held. */
  lemma {:induction false} AddNewInOrder(acc: seq<MethodDesc>, a: seq<MethodDesc>, b: seq<MethodDesc>)
    ensures AddNew(acc, a + b) == AddNew(AddNew(acc, a), b)
    ensures |a| == 1 ==> AddNew(acc, a) == if a[0].smd.Some? && a[0] !in acc then acc + a else acc
    decreases |a|
  {
    if |a| == 0 {
      assert a + b == b;
    } else {
      var acc1 := if a[0].smd.Some? && a[0] !in acc then acc + [a[0]] else acc;
      assert (a + b)[0] == a[0] && (a + b)[1..] == a[1..] + b;
      assert AddNew(acc, a + b) == AddNew(acc1, a[1..] + b);
      assert AddNew(acc, a) == AddNew(acc1, a[1..]);
      AddNewInOrder(acc1, a[1..], b);
      if |a| == 1 {
        assert a == [a[0]] && a[1..] == [];
      }
    }
  }

  /** The visitor applied to each class of `order` in turn. */
  function CollectAnnotated(u: ClassTable, order: seq<string>, acc: seq<MethodDesc>): (r: seq<MethodDesc>)
    requires forall c | c in order :: c in u
    ensures acc <= r
    ensures forall m :: m in r <==> m in acc || exists c :: c in order && m in u[c].methods && m.smd.Some?
    ensures NoDuplicates(acc) ==> NoDuplicates(r)
  {
    if |order| == 0 then acc
    else CollectAnnotated(u, order[1..], AddNew(acc, u[order[0]].methods))
  }

  /** Listing the classes of `order` is listing its first `j` classes and
      then the rest, so whatever the first `j` classes contribute comes
      before anything a later class adds. */
  lemma {:induction false} CollectAnnotatedSplit(u: ClassTable, order: seq<string>, acc: seq<MethodDesc>, j: nat)
    requires forall c | c in order :: c in u
    requires j <= |order|
    ensures CollectAnnotated(u, order, acc) == CollectAnnotated(u, order[j..], CollectAnnotated(u, order[..j], acc))
    ensures CollectAnnotated(u, order[..j], acc) <= CollectAnnotated(u, order, acc)
    decreases j
  {
    if j == 0 {
      assert order[..0] == [] && order[0..] == order;
    } else {
      var acc1 := AddNew(acc, u[order[0]].methods);
      assert order[..j][1..] == order[1..][..j - 1];
      assert order[j..] == order[1..][j - 1..];
      CollectAnnotatedSplit(u, order[1..], acc1, j - 1);
    }
  }

  /** `listSMDMethods(clazz, ignoreInterfaces)`. */
  function ListSMDMethods(u: ClassTable, cls: string, ignoreInterfaces: bool): (r: seq<MethodDesc>)
    requires Closed(u) && cls in u
    ensures ignoreInterfaces ==> forall m :: m in r <==> m in u[cls].methods && m.smd.Some?
    ensures !ignoreInterfaces ==> NoDuplicates(r)
    ensures !ignoreInterfaces ==> forall m :: m in r <==>
      exists c :: c in SupertypeOrder(u, cls) && m in u[c].methods && m.smd.Some?
  {
    if ignoreInterfaces then Annotated(u[cls].methods)
    else CollectAnnotated(u, SupertypeOrder(u, cls), [])
  }

  /** The listing is ordered by the walk: the class's own annotated
      methods come first, in declaration order, and cut after the first
      `j` classes of the walk it is the listing of those classes alone. */
  lemma ListSMDMethodsOrder(u: ClassTable, cls: string, ignoreInterfaces: bool, j: nat)
    requires Closed(u) && cls in u
    ensures ignoreInterfaces ==> ListSMDMethods(u, cls, ignoreInterfaces) == Annotated(u[cls].methods)
    ensures !ignoreInterfaces ==> AddNew([], u[cls].methods) <= ListSMDMethods(u, cls, ignoreInterfaces)
    ensures !ignoreInterfaces && j <= |SupertypeOrder(u, cls)| ==>
      CollectAnnotated(u, SupertypeOrder(u, cls)[..j], []) <= ListSMDMethods(u, cls, ignoreInterfaces)
  {
    if !ignoreInterfaces {
      var order := SupertypeOrder(u, cls);
      CollectAnnotatedSplit(u, order, [], 1);
      assert order[..1][1..] == [];
      if j <= |order| {
        CollectAnnotatedSplit(u, order, [], j);
      }
    }
  }
}
