/** `JSONWriter` of the current revision: serialises an object graph to JSON
    text, cutting cycles, filtering properties by path patterns, optionally
    dropping null-valued properties, and writing enums either as their name
    or as beans.

    The writer's mutable state is threaded through the recursion as
    parameters: `anc` is the stack of objects being written (innermost
    last) and `path` is `exprStack`, the path of the value being written.
    Each container's loop is split into one member function per element,
    entry or property (`None` when nothing is written for it) and the
    shared comma logic `CommaFold`. */
module JsonWriter {
  import opened Wrappers
  import opened Text
  import opened Escape
  import opened JavaModel
  import opened PathFilter
  import opened ObjectGraph
  import opened Visited

  /** The writer's settings for one `write` call. */
  datatype Config = Config(
    filters: Filters,
    excludeNullProperties: bool,
    ignoreHierarchy: bool,
    enumAsBean: bool)

  /** What ends a `write` with a `JSONException`. */
  datatype WriteError =
    | GetterFailed(property: string)  // a read method threw
    | NullKey                         // a null map key while no paths are built

  /** Properties never written (`shouldExcludeProperty(Class, PropertyDescriptor)`). */
  predicate IsReservedName(name: string) {
    name == "class" || name == "declaringClass" || name == "cachedSuperClass" || name == "metaClass"
  }

  /** The name a property is written under: the `@JSON` name when given. */
  function WrittenName(p: Property): string {
    if p.ann.Some? && |p.ann.value.name| > 0 then p.ann.value.name else p.name
  }

  /** `"name":value` as `add(name, value, method, hasData)` writes it; the
      name is written as is, without escaping. */
  function Member(name: string, text: string): string {
    "\"" + name + "\":" + text
  }

  /** `value(object, method)`: `null`, a cut cycle, or the object processed. */
  function Value(h: Heap, cfg: Config, root: Val, anc: seq<Ref>, path: string, v: Val): (t: Result<string, WriteError>)
    requires WellFormed(h) && ValIn(h, v)
    ensures t.Success? ==> ValueShaped(t.value)
    ensures v.Null? ==> t == Success("null")
    decreases Unvisited(h, anc), 3, 0
  {
    match v
    case Null => Success("null")
    case Ptr(r) =>
      if r in anc then
        if h[r].StrObj? then Process(h, cfg, root, anc, path, r) else Success("null")
      else Process(h, cfg, root, anc, path, r)
  }

  /** `process(object, method)`: dispatch on the kind of object. */
  function Process(h: Heap, cfg: Config, root: Val, anc: seq<Ref>, path: string, r: Ref): (t: Result<string, WriteError>)
    requires WellFormed(h) && r in h && (r !in anc || h[r].StrObj?)
    ensures t.Success? ==> ValueShaped(t.value)
    ensures h[r].StrObj? || h[r].ClassObj? || h[r].BoolObj? || h[r].NumObj? || h[r].CharObj? ==> t.Success?
    decreases Unvisited(h, anc), 2, 0
  {
    match h[r]
    case ClassObj(t) => Success(EscapeString(t))
    case BoolObj(b) => Success(if b then "true" else "false")
    case NumObj(n) => Success(IntToString(n))
    case StrObj(s) => Success(EscapeString(s))
    case CharObj(c) => Success(EscapeString([c]))
    case MapObj(es, _) =>
      PushShrinks(h, anc, r);
      var ms :- EntryMembers(h, cfg, root, anc + [r], path, es, 0);
      Success("{" + CommaFold(ms, false) + "}")
    case ArrayObj(vs, _) =>
      PushShrinks(h, anc, r);
      var ms :- ElemMembers(h, cfg, root, anc + [r], path, vs, 0);
      Success("[" + CommaFold(ms, false) + "]")
    case IterableObj(vs, _) =>
      PushShrinks(h, anc, r);
      var ms :- ElemMembers(h, cfg, root, anc + [r], path, vs, 0);
      Success("[" + CommaFold(ms, false) + "]")
    case LocaleObj(t, _) => Success(EscapeString(t))
    case EnumObj(name, ps) =>
      if cfg.enumAsBean then
        PushShrinks(h, anc, r);
        Bean(h, cfg, root, anc + [r], path, r, ps, Some(name))
      else Success(EscapeString(name))
    case BeanObj(ps, _) =>
      PushShrinks(h, anc, r);
      Bean(h, cfg, root, anc + [r], path, r, ps, None)
  }

  /** The properties `bean` introspects: only the class's own for the root
      object when `ignoreHierarchy` is set. */
  function BeanProps(cfg: Config, root: Val, r: Ref, ps: seq<Property>): seq<Property> {
    if Ptr(r) == root && cfg.ignoreHierarchy then DeclaredHere(ps) else ps
  }

  /** `bean(object)`; an enum written as a bean (`enumName` given) gets a
      trailing `_name` member that no filter applies to. */
  function Bean(h: Heap, cfg: Config, root: Val, here: seq<Ref>, path: string, r: Ref,
                ps: seq<Property>, enumName: Option<string>): (t: Result<string, WriteError>)
    requires WellFormed(h) && PropsIn(h, ps)
    ensures t.Success? ==> |t.value| >= 2 && t.value[0] == '{' && t.value[|t.value| - 1] == '}'
    decreases Unvisited(h, here), 6, 0
  {
    var props := BeanProps(cfg, root, r, ps);
    var ms :- PropMembers(h, cfg, root, here, path, props, 0);
    var tail := if enumName.Some? then [Some(Member("_name", EscapeString(enumName.value)))] else [];
    Success("{" + CommaFold(ms + tail, false) + "}")
  }

  /** One iteration of `bean`'s property loop. */
  function PropMember(h: Heap, cfg: Config, root: Val, here: seq<Ref>, path: string, p: Property): (r: Result<Option<string>, WriteError>)
    requires WellFormed(h) && PropIn(h, p)
    ensures r.Success? && r.value.Some? ==>
      && p.readable && !IsReservedName(p.name)
      && StartsWith(r.value.value, "\"" + WrittenName(p) + "\":")
      && ValueShaped(r.value.value[|WrittenName(p)| + 3..])
    decreases Unvisited(h, here), 4, 0
  {
    if !p.readable then Success(None)
    else if p.ann.Some? && !p.ann.value.serialize then Success(None)
    else if IsReservedName(p.name) then Success(None)
    else
      var name := WrittenName(p);
      var build := BuildExpr(cfg.filters);
      if build && ShouldExclude(cfg.filters, ExpandName(path, name)) then Success(None)
      else
        var childPath := if build then ExpandName(path, name) else path;
        match p.getter
        case Throws => Failure(GetterFailed(p.name))
        case Returns(v) =>
          if cfg.excludeNullProperties && v.Null? then Success(None)
          else
            var t :- Value(h, cfg, root, here, childPath, v);
            Success(Some(Member(name, t)))
  }

  function PropMembers(h: Heap, cfg: Config, root: Val, here: seq<Ref>, path: string, ps: seq<Property>, i: nat): (r: Result<seq<Option<string>>, WriteError>)
    requires WellFormed(h) && PropsIn(h, ps) && i <= |ps|
    ensures r.Success? ==> |r.value| == |ps| - i
    ensures r.Success? ==> forall k :: i <= k < |ps| ==>
      PropMember(h, cfg, root, here, path, ps[k]).Success? && r.value[k - i] == PropMember(h, cfg, root, here, path, ps[k]).value
    decreases Unvisited(h, here), 5, |ps| - i
  {
    if i == |ps| then Success([])
    else
      var m :- PropMember(h, cfg, root, here, path, ps[i]);
      var rest :- PropMembers(h, cfg, root, here, path, ps, i + 1);
      Success([m] + rest)
  }

  /** One iteration of either `array` loop: element `k`, skipped (and, for
      an iterator, consumed) when its path is excluded. */
  function ElemMember(h: Heap, cfg: Config, root: Val, here: seq<Ref>, path: string, vs: seq<Val>, k: nat): (r: Result<Option<string>, WriteError>)
    requires WellFormed(h) && ValsIn(h, vs) && k < |vs|
    ensures r.Success? ==> (r.value.None? <==> BuildExpr(cfg.filters) && ShouldExclude(cfg.filters, ExpandIndex(path, k)))
    ensures r.Success? && r.value.Some? ==> ValueShaped(r.value.value)
    decreases Unvisited(h, here), 4, 0
  {
    var build := BuildExpr(cfg.filters);
    if build && ShouldExclude(cfg.filters, ExpandIndex(path, k)) then Success(None)
    else
      var childPath := if build then ExpandIndex(path, k) else path;
      var t :- Value(h, cfg, root, here, childPath, vs[k]);
      Success(Some(t))
  }

  function ElemMembers(h: Heap, cfg: Config, root: Val, here: seq<Ref>, path: string, vs: seq<Val>, i: nat): (r: Result<seq<Option<string>>, WriteError>)
    requires WellFormed(h) && ValsIn(h, vs) && i <= |vs|
    ensures r.Success? ==> |r.value| == |vs| - i
    ensures r.Success? ==> forall k :: i <= k < |vs| ==>
      ElemMember(h, cfg, root, here, path, vs, k).Success? && r.value[k - i] == ElemMember(h, cfg, root, here, path, vs, k).value
    decreases Unvisited(h, here), 5, |vs| - i
  {
    if i == |vs| then Success([])
    else
      var m :- ElemMember(h, cfg, root, here, path, vs, i);
      var rest :- ElemMembers(h, cfg, root, here, path, vs, i + 1);
      Success([m] + rest)
  }

  /** One iteration of `map`'s entry loop. The key is written through
      `value(key.toString())`, i.e. always as a quoted string. */
  function EntryMember(h: Heap, cfg: Config, root: Val, here: seq<Ref>, path: string, es: seq<(Val, Val)>, k: nat): (r: Result<Option<string>, WriteError>)
    requires WellFormed(h) && EntriesIn(h, es) && k < |es|
    ensures r.Success? && r.value.Some? ==>
      && es[k].0.Ptr?
      && StartsWith(r.value.value, EscapeString(ToStr(h, es[k].0.ref)) + ":")
      && ValueShaped(r.value.value[|EscapeString(ToStr(h, es[k].0.ref))| + 1..])
    decreases Unvisited(h, here), 4, 0
  {
    var key := es[k].0;
    var build := BuildExpr(cfg.filters);
    if build && key.Null? then Success(None)
    else if key.Null? then Failure(NullKey)
    else
      var keyText := ToStr(h, key.ref);
      if build && ShouldExclude(cfg.filters, ExpandName(path, keyText)) then Success(None)
      else
        var childPath := if build then ExpandName(path, keyText) else path;
        var t :- Value(h, cfg, root, here, childPath, es[k].1);
        Success(Some(EscapeString(keyText) + ":" + t))
  }

  function EntryMembers(h: Heap, cfg: Config, root: Val, here: seq<Ref>, path: string, es: seq<(Val, Val)>, i: nat): (r: Result<seq<Option<string>>, WriteError>)
    requires WellFormed(h) && EntriesIn(h, es) && i <= |es|
    ensures r.Success? ==> |r.value| == |es| - i
    ensures r.Success? ==> forall k :: i <= k < |es| ==>
      EntryMember(h, cfg, root, here, path, es, k).Success? && r.value[k - i] == EntryMember(h, cfg, root, here, path, es, k).value
    decreases Unvisited(h, here), 5, |es| - i
  {
    if i == |es| then Success([])
    else
      var m :- EntryMember(h, cfg, root, here, path, es, i);
      var rest :- EntryMembers(h, cfg, root, here, path, es, i + 1);
      Success([m] + rest)
  }

  /** `write(object, excludeProperties, includeProperties, excludeNullProperties)`
      with the writer's `ignoreHierarchy` and `enumAsBean` settings. */
  function Write(h: Heap, root: Val, filters: Filters, excludeNullProperties: bool,
                 ignoreHierarchy: bool, enumAsBean: bool): (t: Result<string, WriteError>)
    requires WellFormed(h) && ValIn(h, root)
    ensures t.Success? ==> ValueShaped(t.value)
    ensures root.Null? ==> t == Success("null")
  {
    Value(h, Config(filters, excludeNullProperties, ignoreHierarchy, enumAsBean), root, [], "", root)
  }

  /** The path a property's value is written under. */
  function PropPath(cfg: Config, path: string, p: Property): string {
    if BuildExpr(cfg.filters) then ExpandName(path, WrittenName(p)) else path
  }

  /** A property is written exactly when it is readable, not marked
      `serialize=false`, not reserved, its path (under its written name) is
      not excluded, and its value is not a dropped null; it is written under
      its `@JSON` name with its value written at that path. An excluded
      property's read method is never called, so a throwing one is harmless. */
  lemma PropMemberWritten(h: Heap, cfg: Config, root: Val, here: seq<Ref>, path: string, p: Property)
    requires WellFormed(h) && PropIn(h, p)
    requires PropMember(h, cfg, root, here, path, p).Success?
    ensures PropMember(h, cfg, root, here, path, p).value.Some? <==>
      && p.readable
      && !(p.ann.Some? && !p.ann.value.serialize)
      && !IsReservedName(p.name)
      && !(BuildExpr(cfg.filters) && ShouldExclude(cfg.filters, ExpandName(path, WrittenName(p))))
      && p.getter.Returns?
      && !(cfg.excludeNullProperties && p.getter.v.Null?)
    ensures PropMember(h, cfg, root, here, path, p).value.Some? ==>
      && Value(h, cfg, root, here, PropPath(cfg, path, p), p.getter.v).Success?
      && PropMember(h, cfg, root, here, path, p).value.value
         == Member(WrittenName(p), Value(h, cfg, root, here, PropPath(cfg, path, p), p.getter.v).value)
  {
  }

  /** A property whose read method throws fails the write unless it is
      skipped before the read method is called. */
  lemma ThrowingGetterFails(h: Heap, cfg: Config, root: Val, here: seq<Ref>, path: string, p: Property)
    requires WellFormed(h) && PropIn(h, p) && p.getter.Throws?
    ensures PropMember(h, cfg, root, here, path, p).Failure? <==>
      && p.readable
      && !(p.ann.Some? && !p.ann.value.serialize)
      && !IsReservedName(p.name)
      && !(BuildExpr(cfg.filters) && ShouldExclude(cfg.filters, ExpandName(path, WrittenName(p))))
  {
  }

  /** In a written array or collection with paths built, element `k` is
      left out exactly when the path `parent[k]` is excluded, and otherwise
      is written under that path: skipping an element never shifts the
      index of the ones after it. */
  lemma ElementWrittenIffIncluded(h: Heap, cfg: Config, root: Val, here: seq<Ref>, path: string, vs: seq<Val>, k: nat)
    requires WellFormed(h) && ValsIn(h, vs) && k < |vs| && BuildExpr(cfg.filters)
    requires ElemMembers(h, cfg, root, here, path, vs, 0).Success?
    ensures ElemMembers(h, cfg, root, here, path, vs, 0).value[k].None? <==> ShouldExclude(cfg.filters, ExpandIndex(path, k))
    ensures ElemMembers(h, cfg, root, here, path, vs, 0).value[k].Some? ==>
      && Value(h, cfg, root, here, ExpandIndex(path, k), vs[k]).Success?
      && ElemMembers(h, cfg, root, here, path, vs, 0).value[k]
        == Some(Value(h, cfg, root, here, ExpandIndex(path, k), vs[k]).value)
  {
    assert ElemMembers(h, cfg, root, here, path, vs, 0).value[k] == ElemMember(h, cfg, root, here, path, vs, k).value;
    ElemIncluded(h, cfg, root, here, path, vs, k);
  }

  /** One element, with paths built: left out exactly when its path is
      excluded, otherwise its value written under that path. */
  lemma ElemIncluded(h: Heap, cfg: Config, root: Val, here: seq<Ref>, path: string, vs: seq<Val>, k: nat)
    requires WellFormed(h) && ValsIn(h, vs) && k < |vs| && BuildExpr(cfg.filters)
    requires ElemMember(h, cfg, root, here, path, vs, k).Success?
    ensures ElemMember(h, cfg, root, here, path, vs, k).value.None? <==> ShouldExclude(cfg.filters, ExpandIndex(path, k))
    ensures ElemMember(h, cfg, root, here, path, vs, k).value.Some? ==>
      && Value(h, cfg, root, here, ExpandIndex(path, k), vs[k]).Success?
      && ElemMember(h, cfg, root, here, path, vs, k).value == Some(Value(h, cfg, root, here, ExpandIndex(path, k), vs[k]).value)
  {
  }

  /** A written map entry is the quoted, escaped `toString()` of its key, a
      colon and the value; the key text decodes back to `toString()` up to
      its first U+FFFF, so to all of it when it holds none. */
  lemma EntryWritten(h: Heap, cfg: Config, root: Val, here: seq<Ref>, path: string, es: seq<(Val, Val)>, k: nat)
    requires WellFormed(h) && EntriesIn(h, es) && k < |es|
    requires EntryMember(h, cfg, root, here, path, es, k).Success?
    requires EntryMember(h, cfg, root, here, path, es, k).value.Some?
    ensures es[k].0.Ptr?
    ensures var keyText := ToStr(h, es[k].0.ref);
      var m := EntryMember(h, cfg, root, here, path, es, k).value.value;
      && StartsWith(m, EscapeString(keyText) + ":")
      && UnescapeString(EscapeString(keyText)) == Some(UntilDone(keyText))
      && (Done !in keyText ==> UnescapeString(EscapeString(keyText)) == Some(keyText))
  {
    UnescapeEscapeString(ToStr(h, es[k].0.ref));
  }

  /** With paths built, an entry whose key is not null is left out exactly
      when its path `parent.key` is excluded, and otherwise is the quoted,
      escaped key text, a colon and the value written under that path. */
  lemma EntryIncluded(h: Heap, cfg: Config, root: Val, here: seq<Ref>, path: string, es: seq<(Val, Val)>, k: nat)
    requires WellFormed(h) && EntriesIn(h, es) && k < |es| && BuildExpr(cfg.filters) && es[k].0.Ptr?
    requires EntryMember(h, cfg, root, here, path, es, k).Success?
    ensures var keyText := ToStr(h, es[k].0.ref);
      EntryMember(h, cfg, root, here, path, es, k).value.None? <==> ShouldExclude(cfg.filters, ExpandName(path, keyText))
    ensures var keyText := ToStr(h, es[k].0.ref);
      EntryMember(h, cfg, root, here, path, es, k).value.Some? ==>
        && Value(h, cfg, root, here, ExpandName(path, keyText), es[k].1).Success?
        && EntryMember(h, cfg, root, here, path, es, k).value.value
           == EscapeString(keyText) + ":" + Value(h, cfg, root, here, ExpandName(path, keyText), es[k].1).value
  {
  }

  /** In a written map with paths built, entry `k` with a non-null key is
      left out exactly when `parent.key` is excluded, and otherwise is
      written with its value under that path. */
  lemma EntryWrittenIffIncluded(h: Heap, cfg: Config, root: Val, here: seq<Ref>, path: string, es: seq<(Val, Val)>, k: nat)
    requires WellFormed(h) && EntriesIn(h, es) && k < |es| && BuildExpr(cfg.filters) && es[k].0.Ptr?
    requires EntryMembers(h, cfg, root, here, path, es, 0).Success?
    ensures var keyText := ToStr(h, es[k].0.ref);
      EntryMembers(h, cfg, root, here, path, es, 0).value[k].None? <==> ShouldExclude(cfg.filters, ExpandName(path, keyText))
    ensures var keyText := ToStr(h, es[k].0.ref);
      EntryMembers(h, cfg, root, here, path, es, 0).value[k].Some? ==>
        && Value(h, cfg, root, here, ExpandName(path, keyText), es[k].1).Success?
        && EntryMembers(h, cfg, root, here, path, es, 0).value[k]
           == Some(EscapeString(keyText) + ":" + Value(h, cfg, root, here, ExpandName(path, keyText), es[k].1).value)
  {
    assert EntryMembers(h, cfg, root, here, path, es, 0).value[k] == EntryMember(h, cfg, root, here, path, es, k).value;
    EntryIncluded(h, cfg, root, here, path, es, k);
  }

  /** A map is written as `{`, its written entries joined by commas, `}`. */
  lemma MapBody(h: Heap, cfg: Config, root: Val, anc: seq<Ref>, path: string, r: Ref)
    requires WellFormed(h) && r in h && r !in anc && h[r].MapObj?
    requires Process(h, cfg, root, anc, path, r).Success?
    ensures EntryMembers(h, cfg, root, anc + [r], path, h[r].entries, 0).Success?
    ensures Process(h, cfg, root, anc, path, r).value
      == "{" + Join(",", Somes(EntryMembers(h, cfg, root, anc + [r], path, h[r].entries, 0).value)) + "}"
  {
    CommaFoldJoin(EntryMembers(h, cfg, root, anc + [r], path, h[r].entries, 0).value);
  }

  /** An array or a collection is written as `[`, its written elements
      joined by commas, `]`. */
  lemma ArrayBody(h: Heap, cfg: Config, root: Val, anc: seq<Ref>, path: string, r: Ref)
    requires WellFormed(h) && r in h && r !in anc && (h[r].ArrayObj? || h[r].IterableObj?)
    requires Process(h, cfg, root, anc, path, r).Success?
    ensures ElemMembers(h, cfg, root, anc + [r], path, h[r].elems, 0).Success?
    ensures Process(h, cfg, root, anc, path, r).value
      == "[" + Join(",", Somes(ElemMembers(h, cfg, root, anc + [r], path, h[r].elems, 0).value)) + "]"
  {
    CommaFoldJoin(ElemMembers(h, cfg, root, anc + [r], path, h[r].elems, 0).value);
  }

  /** A bean is written as `{`, its written property members joined by
      commas, then, for an enum written as a bean, its `_name` member, `}`. */
  lemma BeanBody(h: Heap, cfg: Config, root: Val, here: seq<Ref>, path: string, r: Ref,
                 ps: seq<Property>, enumName: Option<string>)
    requires WellFormed(h) && PropsIn(h, ps)
    requires Bean(h, cfg, root, here, path, r, ps, enumName).Success?
    ensures PropMembers(h, cfg, root, here, path, BeanProps(cfg, root, r, ps), 0).Success?
    ensures var ms := PropMembers(h, cfg, root, here, path, BeanProps(cfg, root, r, ps), 0).value;
      Bean(h, cfg, root, here, path, r, ps, enumName).value
      == "{" + Join(",", Somes(ms) + (if enumName.Some? then [Member("_name", EscapeString(enumName.value))] else [])) + "}"
  {
    var ms := PropMembers(h, cfg, root, here, path, BeanProps(cfg, root, r, ps), 0).value;
    var tail := if enumName.Some? then [Some(Member("_name", EscapeString(enumName.value)))] else [];
    CommaFoldJoin(ms + tail);
    SomesAppend(ms, tail);
    assert Somes(tail) == if enumName.Some? then [Member("_name", EscapeString(enumName.value))] else [];
  }

  /** A null key is skipped when paths are built and fails the write
      otherwise. */
  lemma NullKeyEntry(h: Heap, cfg: Config, root: Val, here: seq<Ref>, path: string, es: seq<(Val, Val)>, k: nat)
    requires WellFormed(h) && EntriesIn(h, es) && k < |es| && es[k].0.Null?
    ensures BuildExpr(cfg.filters) ==> EntryMember(h, cfg, root, here, path, es, k) == Success(None)
    ensures !BuildExpr(cfg.filters) ==> EntryMember(h, cfg, root, here, path, es, k) == Failure(NullKey)
  {
  }

  /** An object met again while it is still being written is written as
      `null`: the writer cuts every cycle. */
  lemma CycleWrittenAsNull(h: Heap, cfg: Config, root: Val, anc: seq<Ref>, path: string, r: Ref)
    requires WellFormed(h) && r in h && r in anc && !h[r].StrObj?
    ensures Value(h, cfg, root, anc, path, Ptr(r)) == Success("null")
  {
  }

  /** The root's inherited properties are not written when
      `ignoreHierarchy` is set. */
  lemma RootOwnPropertiesOnly(cfg: Config, root: Val, r: Ref, ps: seq<Property>)
    requires cfg.ignoreHierarchy && root == Ptr(r)
    ensures forall p | p in BeanProps(cfg, root, r, ps) :: p.declaredHere
    ensures forall p | p in ps && p.declaredHere :: p in BeanProps(cfg, root, r, ps)
  {
  }

  /** The last member written by the comma loop ends its text. */
  lemma {:induction false} CommaFoldEndsWith(ms: seq<Option<string>>, x: string, hasData: bool)
    ensures EndsWith(CommaFold(ms + [Some(x)], hasData), x)
    decreases |ms|
  {
    if |ms| == 0 {
      assert CommaFold([Some(x)], hasData) == (if hasData then "," else "") + x + CommaFold([], true);
    } else {
      assert (ms + [Some(x)])[1..] == ms[1..] + [Some(x)];
      CommaFoldEndsWith(ms[1..], x, true);
      CommaFoldEndsWith(ms[1..], x, hasData);
    }
  }

  /** An enum is written as its quoted name, or with `enumAsBean` as a bean
      whose last member is `_name`, which no filter removes. */
  lemma EnumWritten(h: Heap, cfg: Config, root: Val, anc: seq<Ref>, path: string, r: Ref)
    requires WellFormed(h) && r in h && r !in anc && h[r].EnumObj?
    requires Process(h, cfg, root, anc, path, r).Success?
    ensures !cfg.enumAsBean ==> Process(h, cfg, root, anc, path, r).value == EscapeString(h[r].name)
    ensures cfg.enumAsBean ==>
      EndsWith(Process(h, cfg, root, anc, path, r).value, Member("_name", EscapeString(h[r].name)) + "}")
  {
    if cfg.enumAsBean {
      var here := anc + [r];
      PushShrinks(h, anc, r);
      BeanTail(h, cfg, root, here, path, r, h[r].props, h[r].name);
    }
  }

  /** The `_name` member closes an enum written as a bean. */
  lemma BeanTail(h: Heap, cfg: Config, root: Val, here: seq<Ref>, path: string, r: Ref, ps: seq<Property>, name: string)
    requires WellFormed(h) && PropsIn(h, ps)
    requires Bean(h, cfg, root, here, path, r, ps, Some(name)).Success?
    ensures EndsWith(Bean(h, cfg, root, here, path, r, ps, Some(name)).value, Member("_name", EscapeString(name)) + "}")
  {
    var ms := PropMembers(h, cfg, root, here, path, BeanProps(cfg, root, r, ps), 0).value;
    var x := Member("_name", EscapeString(name));
    CommaFoldEndsWith(ms, x, false);
    BracedEndsWith(CommaFold(ms + [Some(x)], false), x);
  }

  lemma BracedEndsWith(body: string, x: string)
    requires EndsWith(body, x)
    ensures EndsWith("{" + body + "}", x + "}")
  {
    var t := "{" + body + "}";
    assert t[|t| - |x + "}"|..] == body[|body| - |x|..] + "}";
  }

  /** A string is written as a JSON string literal denoting its text up to
      the first U+FFFF, so denoting all of it when it holds none. */
  lemma StringWritten(h: Heap, cfg: Config, root: Val, anc: seq<Ref>, path: string, r: Ref)
    requires WellFormed(h) && r in h && h[r].StrObj?
    ensures Value(h, cfg, root, anc, path, Ptr(r)).Success?
    ensures UnescapeString(Value(h, cfg, root, anc, path, Ptr(r)).value) == Some(UntilDone(h[r].s))
    ensures Done !in h[r].s ==> UnescapeString(Value(h, cfg, root, anc, path, Ptr(r)).value) == Some(h[r].s)
  {
    UnescapeEscapeString(h[r].s);
  }

  /** Two beans referring to each other: bean 0's property `b` is bean 1,
      whose property `a` is bean 0. */
  function CycleHeap(): (h: Heap)
    ensures WellFormed(h)
  {
    map[0 := BeanObj([Property("b", true, true, None, Returns(Ptr(1)))], "A"),
        1 := BeanObj([Property("a", true, true, None, Returns(Ptr(0)))], "B")]
  }

  const PlainConfig := Config(Filters(None, None), false, true, false)

  /** A property list of one property writes that property's member. */
  lemma PropMembersOne(h: Heap, cfg: Config, root: Val, here: seq<Ref>, path: string, p: Property, m: Option<string>)
    requires WellFormed(h) && PropIn(h, p)
    requires PropMember(h, cfg, root, here, path, p) == Success(m)
    ensures PropsIn(h, [p]) && PropMembers(h, cfg, root, here, path, [p], 0) == Success([m])
  {
    assert [p][0] == p;
    assert PropMembers(h, cfg, root, here, path, [p], 1) == Success([]);
    assert [m] + [] == [m];
  }

  /** A bean whose only written member is `x` is written as `{x}`. */
  lemma BeanOneMember(h: Heap, cfg: Config, root: Val, here: seq<Ref>, path: string, r: Ref, p: Property, x: string)
    requires WellFormed(h) && PropIn(h, p) && BeanProps(cfg, root, r, [p]) == [p]
    requires PropMember(h, cfg, root, here, path, p) == Success(Some(x))
    ensures PropsIn(h, [p]) && Bean(h, cfg, root, here, path, r, [p], None) == Success("{" + x + "}")
  {
    PropMembersOne(h, cfg, root, here, path, p, Some(x));
    assert [Some(x)] + [] == [Some(x)];
    assert CommaFold([Some(x)], false) == x + CommaFold([], true);
    assert x + "" == x;
  }

  /** A readable, unannotated property with an ordinary name, written
      without filters and with nulls kept, is the member for its value. */
  lemma PlainPropMember(h: Heap, root: Val, here: seq<Ref>, path: string, p: Property, t: string)
    requires WellFormed(h) && PropIn(h, p)
    requires p.readable && p.ann.None? && !IsReservedName(p.name) && p.getter.Returns?
    requires Value(h, PlainConfig, root, here, path, p.getter.v) == Success(t)
    ensures PropMember(h, PlainConfig, root, here, path, p) == Success(Some(Member(p.name, t)))
  {
  }

  const InnerText: string := "{" + Member("a", "null") + "}"
  const OuterText: string := "{" + Member("b", InnerText) + "}"

  /** Inside bean 1, reached from bean 0, the reference back to bean 0 is
      cut. */
  lemma CycleBack()
    ensures Value(CycleHeap(), PlainConfig, Ptr(0), [0, 1], "", Ptr(0)) == Success("null")
  {
  }

  lemma CycleInnerMember()
    ensures PropMember(CycleHeap(), PlainConfig, Ptr(0), [0, 1], "", Property("a", true, true, None, Returns(Ptr(0))))
         == Success(Some(Member("a", "null")))
  {
    CycleBack();
    PlainPropMember(CycleHeap(), Ptr(0), [0, 1], "", Property("a", true, true, None, Returns(Ptr(0))), "null");
  }

  lemma CycleInnerBean()
    ensures Bean(CycleHeap(), PlainConfig, Ptr(0), [0, 1], "", 1, [Property("a", true, true, None, Returns(Ptr(0)))], None)
         == Success(InnerText)
  {
    var b := Property("a", true, true, None, Returns(Ptr(0)));
    CycleInnerMember();
    assert BeanProps(PlainConfig, Ptr(0), 1, [b]) == [b];
    BeanOneMember(CycleHeap(), PlainConfig, Ptr(0), [0, 1], "", 1, b, Member("a", "null"));
  }

  lemma CycleInner()
    ensures Value(CycleHeap(), PlainConfig, Ptr(0), [0], "", Ptr(1)) == Success(InnerText)
  {
    CycleInnerBean();
    assert [0] + [1] == [0, 1];
  }

  lemma CycleOuterMember()
    ensures PropMember(CycleHeap(), PlainConfig, Ptr(0), [0], "", Property("b", true, true, None, Returns(Ptr(1))))
         == Success(Some(Member("b", InnerText)))
  {
    CycleInner();
    PlainPropMember(CycleHeap(), Ptr(0), [0], "", Property("b", true, true, None, Returns(Ptr(1))), InnerText);
  }

  lemma CycleOuterBean()
    ensures Bean(CycleHeap(), PlainConfig, Ptr(0), [0], "", 0, [Property("b", true, true, None, Returns(Ptr(1)))], None)
         == Success(OuterText)
  {
    var a := Property("b", true, true, None, Returns(Ptr(1)));
    CycleOuterMember();
    assert DeclaredHere([a]) == [a];
    BeanOneMember(CycleHeap(), PlainConfig, Ptr(0), [0], "", 0, a, Member("b", InnerText));
  }

  lemma OuterTextIs()
    ensures OuterText == "{\"b\":{\"a\":null}}"
  {
  }

  /** Writing bean 0 of `CycleHeap` writes the back reference as `null`. */
  lemma TwoBeanCycle()
    ensures Write(CycleHeap(), Ptr(0), Filters(None, None), false, true, false) == Success("{\"b\":{\"a\":null}}")
  {
    CycleOuterBean();
    OuterTextIs();
    assert [] + [0] == [0];
    assert CycleHeap()[0] == BeanObj([Property("b", true, true, None, Returns(Ptr(1)))], "A");
  }
}
