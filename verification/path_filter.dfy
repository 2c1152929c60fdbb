/** Property paths and the exclude and include rules the writers test them
    against. A path names a value by its position under the root: `a.b`
    for property `b` of property `a`, `a[2]` for element 2 of `a`. */
module PathFilter {
  import opened Wrappers
  import opened Text

  /** A compiled `java.util.regex.Pattern`, reduced to what the writer asks
      of it: does it match the whole path (`matcher(expr).matches()`). */
  type Matcher = string -> bool

  /** Whether some pattern of `ps` matches `e`, scanning in order. */
  function AnyMatches(ps: seq<Matcher>, e: string): (r: bool)
    ensures r <==> exists k :: 0 <= k < |ps| && ps[k](e)
  {
    if |ps| == 0 then false
    else if ps[0](e) then true
    else AnyMatches(ps[1..], e)
  }

  /** The exclude and include pattern collections; `None` is a null one. */
  datatype Filters = Filters(excludes: Option<seq<Matcher>>, includes: Option<seq<Matcher>>)

  /** Paths are only built when some collection is non-null and non-empty. */
  predicate BuildExpr(f: Filters) {
    (f.excludes.Some? && |f.excludes.value| > 0) || (f.includes.Some? && |f.includes.value| > 0)
  }

  /** `shouldExcludeProperty(String)` of the current writer. */
  function ShouldExclude(f: Filters, e: string): (r: bool)
    ensures f.excludes.Some? && AnyMatches(f.excludes.value, e) ==> r
    ensures f.includes.None? && (f.excludes.None? || f.excludes.value == []) ==> !r
  {
    if f.excludes.Some? && AnyMatches(f.excludes.value, e) then true
    else if f.includes.Some? then !AnyMatches(f.includes.value, e)
    else false
  }

  /** A path is excluded exactly when an exclude pattern matches it, or an
      include collection is given and none of its patterns matches it. */
  lemma ShouldExcludeMeaning(f: Filters, e: string)
    ensures ShouldExclude(f, e) <==>
      || (f.excludes.Some? && exists k :: 0 <= k < |f.excludes.value| && f.excludes.value[k](e))
      || (f.includes.Some? && forall k :: 0 <= k < |f.includes.value| ==> !f.includes.value[k](e))
  {
  }

  /** An exclude match wins over any include match. */
  lemma ExcludeWins(f: Filters, e: string, k: nat)
    requires f.excludes.Some? && k < |f.excludes.value| && f.excludes.value[k](e)
    ensures ShouldExclude(f, e)
  {
  }

  /** A non-null but empty include collection excludes every path. */
  lemma EmptyIncludeExcludesAll(f: Filters, e: string)
    requires f.includes == Some([])
    ensures ShouldExclude(f, e)
  {
  }

  /** `shouldExcludeProperty(String)` of the older writer: exclude rules only. */
  function LegacyShouldExclude(excludes: seq<Matcher>, e: string): (r: bool)
    ensures r <==> exists k :: 0 <= k < |excludes| && excludes[k](e)
  {
    AnyMatches(excludes, e)
  }

  /** `expandExpr(String)`: the path of property `name` under `stack`. */
  function ExpandName(stack: string, name: string): (r: string)
    ensures |stack| == 0 ==> r == name
    ensures |stack| > 0 ==> |r| == |stack| + 1 + |name|
    ensures |stack| > 0 ==> r[..|stack|] == stack && r[|stack|] == '.' && r[|stack| + 1..] == name
  {
    if |stack| == 0 then name else stack + "." + name
  }

  /** `expandExpr(int)`: the path of element `i` under `stack`. */
  function ExpandIndex(stack: string, i: int): (r: string)
    ensures StartsWith(r, stack + "[") && r[|r| - 1] == ']'
  {
    stack + "[" + IntToString(i) + "]"
  }

  /** An element path is the parent path, then the index in brackets. */
  lemma ExpandIndexShape(stack: string, i: int)
    ensures var r := ExpandIndex(stack, i);
      && |r| == |stack| + 2 + |IntToString(i)|
      && r[..|stack|] == stack && r[|stack|] == '['
      && r[|r| - 1] == ']' && r[|stack| + 1..|r| - 1] == IntToString(i)
  {
  }

  /** Different indices under the same parent give different paths, so an
      element's path always reflects its own index. */
  lemma ExpandIndexInjective(stack: string, i: int, j: int)
    requires ExpandIndex(stack, i) == ExpandIndex(stack, j)
    ensures i == j
  {
    var a := ExpandIndex(stack, i);
    ExpandIndexShape(stack, i);
    ExpandIndexShape(stack, j);
    assert a[|stack| + 1..|a| - 1] == IntToString(i) == IntToString(j);
    IntToStringInjective(i, j);
  }
}
