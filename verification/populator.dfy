/** Binding a parsed JSON object to a bean: `JSONPopulator` of the older
    revision, and the copy of the same code inlined into the current
    revision's `JSONInterceptor`, which differs in which declared types it
    converts as primitives and in its string conversions.

    Reflection is replaced by the class table of `JavaModel`; a populated
    bean is the class it was instantiated from and, for each of its
    properties in introspection order, the value its setter was called with
    (`None` when it was not called). */
module Populator {
  import opened Wrappers
  import opened Text
  import opened JsonValue
  import opened JavaModel

  /** `JSONPopulator`, or the converter inlined in the current interceptor. */
  datatype Flavor = JsonPopulator | InlinePopulator

  /** A Java object the converter hands to a setter or stores in an array.
      Numbers, booleans and characters are boxed; a `float` or `double`
      holds the integral value it was converted from. */
  datatype JavaVal =
    | JNullV
    | BoolV(b: bool)
    | IntegralV(kind: PrimKind, n: int)
    | FloatingV(kind: PrimKind, n: int)
    | CharV(c: char)
    | StrV(s: string)
    | EnumV(enumName: string, name: string)
    | ListV(items: seq<JValue>)
    | MapV(fields: map<string, JValue>)
    | ArrayV(component: JType, elems: seq<JavaVal>)
    | BeanV(cls: string, props: seq<Option<JavaVal>>)

  /** The exceptions population ends with. */
  datatype PopError =
    | NullSetter(property: string)       // a key names a property without a setter
    | Incompatible(accessor: string)     // "Incompatible types for property ..."
    | NotInstantiable                    // `Class.newInstance` failed
    | NoEnumConstant(name: string)       // `Enum.valueOf` found no constant
    | ClassCast                          // a non-string where a string was cast
    | NullPointer
    | ArgumentMismatch(accessor: string) // `Method.invoke` or `Array.set` refused the value
    | StringIndexOutOfBounds             // `charAt(0)` of an empty string

  /** The method whose first parameter `convertToArray` takes the array
      type from, and whose name error messages carry. */
  datatype Accessor = Accessor(name: string, params: seq<JType>)

  /** A parsed value passed on unconverted: integral numbers are `Long`s. */
  function Raw(v: JValue): (r: JavaVal)
    ensures v.JNull? <==> r.JNullV?
  {
    match v
    case JNull => JNullV
    case JBool(b) => BoolV(b)
    case JNum(n) => IntegralV(LongK, n)
    case JStr(s) => StrV(s)
    case JList(items) => ListV(items)
    case JObject(fields) => MapV(fields)
  }

  /** Whether `Method.invoke` (or `Array.set`) accepts `x` for a parameter
      (or component) of type `t`: unboxing followed by widening for a
      primitive, an instance of the type otherwise. */
  predicate Assignable(t: JType, x: JavaVal) {
    (t == BeanT(ObjectClass) && !x.JNullV?) ||
    match x
    case JNullV => !t.Prim?
    case BoolV(_) => t == Prim(BooleanK) || t == Boxed(BooleanK)
    case IntegralV(k, _) => t == Boxed(k) || (t.Prim? && Widens(k, t.kind))
    case FloatingV(k, _) => t == Boxed(k) || (t.Prim? && Widens(k, t.kind))
    case CharV(_) => t == Boxed(CharK) || (t.Prim? && Widens(CharK, t.kind))
    case StrV(_) => t == StringT
    case EnumV(e, _) => t.EnumT? && t.enumName == e
    case ListV(_) => t == ListT
    case MapV(_) => t == MapT
    case ArrayV(c, _) => t == ArrayT(c)
    case BeanV(c, _) => t == BeanT(c)
  }

  /** The declared types sent to `convertPrimitive`: `isJSONPrimitive` for
      `JSONPopulator` (primitives, their wrappers, `String` and enums), only
      primitives and `String` for the inlined copy. */
  predicate PrimitiveLike(flavor: Flavor, t: JType) {
    match flavor
    case JsonPopulator => t.Prim? || t.Boxed? || t == StringT || t.EnumT?
    case InlinePopulator => t.Prim? || t == StringT
  }

  /** The numeric kinds `Number` converts to. */
  predicate IsNumeric(k: PrimKind) {
    k != BooleanK && k != CharK
  }

  /** `shortValue()`, `byteValue()`, ... of a `Number` holding `n`. */
  function NumberTo(k: PrimKind, n: int): (r: JavaVal)
    requires IsNumeric(k)
    ensures IsIntegral(k) ==> r.IntegralV? && r.kind == k && InRange(k, r.n) && (n - r.n) % Modulus(k) == 0
    ensures !IsIntegral(k) ==> r == FloatingV(k, n)
  {
    if IsIntegral(k) then IntegralV(k, Narrow(n, k)) else FloatingV(k, n)
  }

  /** `convertPrimitive(clazz, value, method)`; an unhandled pair returns
      the parsed value unchanged. */
  function ConvertPrimitive(flavor: Flavor, t: JType, v: JValue): (r: Result<JavaVal, PopError>)
    ensures r.Failure? ==>
      || (flavor == JsonPopulator && t.EnumT? && !(v.JStr? && v.s in t.constants))
      || (flavor == InlinePopulator && t == Prim(CharK) && v == JStr(""))
    ensures r.Success? && v.JNull? ==> r.value == JNullV
  {
    match flavor
    case JsonPopulator =>
      if v.JNum? then
        if (t.Prim? || t.Boxed?) && IsNumeric(t.kind) then Success(NumberTo(t.kind, v.n))
        else Success(Raw(v))
      else if t.EnumT? then
        if v.JStr? then
          if v.s in t.constants then Success(EnumV(t.enumName, v.s)) else Failure(NoEnumConstant(v.s))
        else if v.JNull? then Failure(NullPointer)
        else Failure(ClassCast)
      else if v.JStr? then
        if t == Prim(BooleanK) || t == Boxed(BooleanK) then Success(BoolV(EqualsIgnoreCase(v.s, "true")))
        else if t == Prim(CharK) || t == Boxed(CharK) then Success(CharV(if |v.s| > 0 then v.s[0] else '\0'))
        else Success(Raw(v))
      else Success(Raw(v))
    case InlinePopulator =>
      if v.JNum? then
        if t.Prim? && IsNumeric(t.kind) then Success(NumberTo(t.kind, v.n))
        else Success(Raw(v))
      else if v.JStr? then
        if t == Prim(BooleanK) then Success(BoolV(EqualsIgnoreCase(v.s, "true")))
        else if t == Prim(CharK) then
          if |v.s| > 0 then Success(CharV(v.s[0])) else Failure(StringIndexOutOfBounds)
        else Success(Raw(v))
      else Success(Raw(v))
  }

  /** `clazz.newInstance()` succeeds: a class of the table with a usable
      no-argument constructor. */
  predicate CanInstantiate(u: ClassTable, t: JType) {
    t.BeanT? && t.cls in u && u[t.cls].instantiable
  }

  /** `convert(clazz, value, method)`. */
  function Convert(flavor: Flavor, u: ClassTable, t: JType, v: JValue, acc: Accessor): (r: Result<JavaVal, PopError>)
    requires |acc.params| > 0
    ensures r.Success? && t.BeanT? && !PrimitiveLike(flavor, t) ==> r.value.BeanV? && r.value.cls == t.cls
    ensures r.Success? && t.ArrayT? && !PrimitiveLike(flavor, t) ==>
      v.JList? && acc.params[0].ArrayT? && r.value.ArrayV? && r.value.component == acc.params[0].component && |r.value.elems| == |v.items|
    decreases v, 3
  {
    if PrimitiveLike(flavor, t) then ConvertPrimitive(flavor, t, v)
    else if t == ListT || t == MapT then Success(Raw(v))
    else if t.ArrayT? then ConvertToArray(flavor, u, v, acc)
    else if v.JObject? then
      if CanInstantiate(u, t) then
        var vals :- Populate(flavor, u, t.cls, v.fields);
        Success(BeanV(t.cls, vals))
      else Failure(NotInstantiable)
    else Failure(Incompatible(acc.name))
  }

  /** `convertToArray(target, accessor, value)`: the component type is the
      one of the accessor's first parameter (`null` when that is not an
      array, so `Array.newInstance` throws). */
  function ConvertToArray(flavor: Flavor, u: ClassTable, v: JValue, acc: Accessor): (r: Result<JavaVal, PopError>)
    requires |acc.params| > 0
    ensures !v.JList? ==> r == Failure(Incompatible(acc.name))
    ensures r.Success? ==>
      v.JList? && acc.params[0].ArrayT? && r.value.ArrayV? && r.value.component == acc.params[0].component && |r.value.elems| == |v.items|
    decreases v, 2
  {
    if !v.JList? then Failure(Incompatible(acc.name))
    else if !acc.params[0].ArrayT? then Failure(NullPointer)
    else
      var elems :- ConvertElems(flavor, u, acc.params[0].component, v.items, 0, acc);
      Success(ArrayV(acc.params[0].component, elems))
  }

  function ConvertElems(flavor: Flavor, u: ClassTable, comp: JType, items: seq<JValue>, j: nat, acc: Accessor): (r: Result<seq<JavaVal>, PopError>)
    requires |acc.params| > 0 && j <= |items|
    ensures r.Success? ==> |r.value| == |items| - j
    decreases JList(items), 1, |items| - j
  {
    if j == |items| then Success([])
    else
      var e :- ConvertElem(flavor, u, comp, items[j], acc);
      var rest :- ConvertElems(flavor, u, comp, items, j + 1, acc);
      Success([e] + rest)
  }

  /** One iteration of `convertToArray`'s loop. */
  function ConvertElem(flavor: Flavor, u: ClassTable, comp: JType, x: JValue, acc: Accessor): (r: Result<JavaVal, PopError>)
    requires |acc.params| > 0
    ensures r.Success? && comp != BeanT(ObjectClass) ==> Assignable(comp, r.value)
    decreases x, 3
  {
    if comp == BeanT(ObjectClass) then Success(Raw(x))
    else if PrimitiveLike(flavor, comp) then
      var c :- ConvertPrimitive(flavor, comp, x);
      if Assignable(comp, c) then Success(c) else Failure(ArgumentMismatch(acc.name))
    else if !CanInstantiate(u, comp) then Failure(NotInstantiable)
    else if x.JObject? then
      var vals :- Populate(flavor, u, comp.cls, x.fields);
      Success(BeanV(comp.cls, vals))
    else Failure(Incompatible(acc.name))
  }

  /** `populateObject(object, elements)` for an object of class `cls`. */
  function Populate(flavor: Flavor, u: ClassTable, cls: string, m: map<string, JValue>): (r: Result<seq<Option<JavaVal>>, PopError>)
    requires cls in u
    ensures r.Success? ==> |r.value| == |u[cls].props|
    decreases JObject(m), 2
  {
    PopulateProps(flavor, u, u[cls].props, m, 0)
  }

  function PopulateProps(flavor: Flavor, u: ClassTable, ps: seq<PropDesc>, m: map<string, JValue>, i: nat): (r: Result<seq<Option<JavaVal>>, PopError>)
    requires i <= |ps|
    ensures r.Success? ==> |r.value| == |ps| - i
    decreases JObject(m), 1, |ps| - i
  {
    if i == |ps| then Success([])
    else
      var x :- PropValue(flavor, u, ps[i], m);
      var rest :- PopulateProps(flavor, u, ps, m, i + 1);
      Success([x] + rest)
  }

  /** One iteration of `populateObject`'s loop: the value property `p` is
      set to, if any. The write method's annotation is looked up before the
      write method is checked for `null`. */
  function PropValue(flavor: Flavor, u: ClassTable, p: PropDesc, m: map<string, JValue>): (r: Result<Option<JavaVal>, PopError>)
    ensures r.Success? && r.value.Some? ==>
      p.name in m && p.setter.Some? && Settable(p.setter.value) && Assignable(p.setter.value.params[0], r.value.value)
    decreases JObject(m), 0
  {
    if p.name !in m then Success(None)
    else if p.setter.None? then Failure(NullSetter(p.name))
    else
      var s := p.setter.value;
      if s.ann.Some? && !s.ann.value.deserialize then Success(None)
      else if !s.isPublic || |s.params| != 1 then Success(None)
      else
        var c :- Convert(flavor, u, s.params[0], m[p.name], Accessor(s.name, s.params));
        if Assignable(s.params[0], c) then Success(Some(c)) else Failure(ArgumentMismatch(s.name))
  }

  /** A setter the populator calls: a public one-argument write method not
      marked `deserialize=false`. */
  predicate Settable(s: Setter) {
    !(s.ann.Some? && !s.ann.value.deserialize) && s.isPublic && |s.params| == 1
  }

  /** A property is set exactly when the object has a member of its name
      and its setter is settable; it is set to the member converted to the
      setter's parameter type. */
  lemma PropValueSet(flavor: Flavor, u: ClassTable, p: PropDesc, m: map<string, JValue>)
    requires PropValue(flavor, u, p, m).Success?
    ensures PropValue(flavor, u, p, m).value.Some? <==> p.name in m && p.setter.Some? && Settable(p.setter.value)
    ensures PropValue(flavor, u, p, m).value.Some? ==>
      var s := p.setter.value;
      && Convert(flavor, u, s.params[0], m[p.name], Accessor(s.name, s.params)) == Success(PropValue(flavor, u, p, m).value.value)
      && Assignable(s.params[0], PropValue(flavor, u, p, m).value.value)
  {
  }

  /** A member naming a property that has no setter (such as `class`) ends
      population with a `NullPointerException`. */
  lemma NoSetterFails(flavor: Flavor, u: ClassTable, p: PropDesc, m: map<string, JValue>)
    requires p.name in m && p.setter.None?
    ensures PropValue(flavor, u, p, m) == Failure(NullSetter(p.name))
  {
  }

  /** Value `k` of a successful loop is what property `i + k` gets on its own. */
  lemma {:induction false} PopulatePropsAt(flavor: Flavor, u: ClassTable, ps: seq<PropDesc>, m: map<string, JValue>, i: nat, k: nat)
    requires i <= |ps| && i + k < |ps|
    requires PopulateProps(flavor, u, ps, m, i).Success?
    ensures PropValue(flavor, u, ps[i + k], m).Success?
    ensures PopulateProps(flavor, u, ps, m, i).value[k] == PropValue(flavor, u, ps[i + k], m).value
    decreases k
  {
    var rest := PopulateProps(flavor, u, ps, m, i + 1);
    assert PropValue(flavor, u, ps[i], m).Success? && rest.Success?;
    assert PopulateProps(flavor, u, ps, m, i).value == [PropValue(flavor, u, ps[i], m).value] + rest.value;
    if k > 0 {
      PopulatePropsAt(flavor, u, ps, m, i + 1, k - 1);
    }
  }

  /** In a populated object, property `k` was set exactly when the JSON
      object has a member of its name and its setter is settable. */
  lemma PopulatedPropertySet(flavor: Flavor, u: ClassTable, cls: string, m: map<string, JValue>, k: nat)
    requires cls in u && k < |u[cls].props|
    requires Populate(flavor, u, cls, m).Success?
    ensures var p := u[cls].props[k];
      Populate(flavor, u, cls, m).value[k].Some? <==> p.name in m && p.setter.Some? && Settable(p.setter.value)
  {
    PopulatePropsAt(flavor, u, u[cls].props, m, 0, k);
    PropValueSet(flavor, u, u[cls].props[k], m);
  }

  /** Members that name no property are ignored: adding or changing one
      does not change the outcome. */
  lemma {:induction false} ExtraMemberIgnored(flavor: Flavor, u: ClassTable, ps: seq<PropDesc>, m: map<string, JValue>, i: nat, key: string, x: JValue)
    requires i <= |ps|
    requires forall q | q in ps :: q.name != key
    ensures PopulateProps(flavor, u, ps, m[key := x], i) == PopulateProps(flavor, u, ps, m, i)
    decreases |ps| - i
  {
    if i < |ps| {
      var p := ps[i];
      assert p in ps;
      assert (p.name in m[key := x]) == (p.name in m);
      if p.name in m {
        assert m[key := x][p.name] == m[p.name];
      }
      assert PropValue(flavor, u, p, m[key := x]) == PropValue(flavor, u, p, m);
      ExtraMemberIgnored(flavor, u, ps, m, i + 1, key, x);
    }
  }

  /** A converted array has one element per list item, each converted on its own. */
  lemma {:induction false} ConvertElemsAt(flavor: Flavor, u: ClassTable, comp: JType, items: seq<JValue>, j: nat, acc: Accessor, k: nat)
    requires |acc.params| > 0 && j + k < |items|
    requires ConvertElems(flavor, u, comp, items, j, acc).Success?
    ensures ConvertElem(flavor, u, comp, items[j + k], acc).Success?
    ensures ConvertElems(flavor, u, comp, items, j, acc).value[k] == ConvertElem(flavor, u, comp, items[j + k], acc).value
    decreases k
  {
    var rest := ConvertElems(flavor, u, comp, items, j + 1, acc);
    assert ConvertElem(flavor, u, comp, items[j], acc).Success? && rest.Success?;
    assert ConvertElems(flavor, u, comp, items, j, acc).value == [ConvertElem(flavor, u, comp, items[j], acc).value] + rest.value;
    if k > 0 {
      ConvertElemsAt(flavor, u, comp, items, j + 1, acc, k - 1);
    }
  }

  /** Array conversion needs a list and yields an array of the first
      parameter's component type with one converted element per item; an
      `Object[]` gets the items unconverted. */
  lemma ArrayConverted(flavor: Flavor, u: ClassTable, v: JValue, acc: Accessor)
    requires |acc.params| > 0
    requires ConvertToArray(flavor, u, v, acc).Success?
    ensures v.JList? && acc.params[0].ArrayT?
    ensures var a := ConvertToArray(flavor, u, v, acc).value;
      && a.ArrayV? && a.component == acc.params[0].component && |a.elems| == |v.items|
      && (a.component == BeanT(ObjectClass) ==> forall k :: 0 <= k < |a.elems| ==> a.elems[k] == Raw(v.items[k]))
  {
    var a := ConvertToArray(flavor, u, v, acc).value;
    if a.component == BeanT(ObjectClass) {
      forall k | 0 <= k < |a.elems|
        ensures a.elems[k] == Raw(v.items[k])
      {
        ConvertElemsAt(flavor, u, a.component, v.items, 0, acc, k);
      }
    }
  }

  /** Array conversion of anything but a list fails. */
  lemma ArrayNeedsList(flavor: Flavor, u: ClassTable, v: JValue, acc: Accessor)
    requires |acc.params| > 0 && !v.JList?
    ensures ConvertToArray(flavor, u, v, acc) == Failure(Incompatible(acc.name))
  {
  }

  /** A number bound to an integral type keeps the low-order bits: the
      result is the unique value of the type congruent to the number. */
  lemma NumberNarrowed(flavor: Flavor, t: JType, n: int)
    requires t.Prim? && IsIntegral(t.kind)
    ensures ConvertPrimitive(flavor, t, JNum(n)).Success?
    ensures var r := ConvertPrimitive(flavor, t, JNum(n)).value;
      && r.IntegralV? && r.kind == t.kind && InRange(t.kind, r.n) && (n - r.n) % Modulus(t.kind) == 0
      && Assignable(t, r)
  {
  }

  /** JSON `3` bound to a `byte` is 3; JSON `300` is 44. */
  lemma ByteExamples(flavor: Flavor)
    ensures ConvertPrimitive(flavor, Prim(ByteK), JNum(3)) == Success(IntegralV(ByteK, 3))
    ensures ConvertPrimitive(flavor, Prim(ByteK), JNum(300)) == Success(IntegralV(ByteK, 44))
  {
    ByteNarrowing();
    assert NumberTo(ByteK, 300) == IntegralV(ByteK, 44);
  }

  /** A string bound to `boolean` is true exactly when it is "true" in any
      letter case. */
  lemma StringToBoolean(flavor: Flavor, s: string)
    ensures ConvertPrimitive(flavor, Prim(BooleanK), JStr(s)) == Success(BoolV(EqualsIgnoreCase(s, "true")))
    ensures ConvertPrimitive(flavor, Prim(BooleanK), JStr("TRUE")) == Success(BoolV(true))
    ensures ConvertPrimitive(flavor, Prim(BooleanK), JStr("yes")) == Success(BoolV(false))
  {
    assert !EqualsIgnoreCase("yes", "true");
  }

  /** A string bound to `char` is its first character; an empty string
      gives `'\0'` in `JSONPopulator` and fails in the inlined copy. */
  lemma StringToChar(flavor: Flavor, s: string)
    ensures |s| > 0 ==> ConvertPrimitive(flavor, Prim(CharK), JStr(s)) == Success(CharV(s[0]))
    ensures |s| == 0 && flavor == JsonPopulator ==> ConvertPrimitive(flavor, Prim(CharK), JStr(s)) == Success(CharV('\0'))
    ensures |s| == 0 && flavor == InlinePopulator ==> ConvertPrimitive(flavor, Prim(CharK), JStr(s)) == Failure(StringIndexOutOfBounds)
  {
  }

  /** `JSONPopulator` binds a string to an enum only when it is exactly
      the name of one of its constants. */
  lemma StringToEnum(t: JType, s: string)
    requires t.EnumT?
    ensures ConvertPrimitive(JsonPopulator, t, JStr(s)).Success? <==> s in t.constants
    ensures ConvertPrimitive(JsonPopulator, t, JStr(s)).Success? ==>
      ConvertPrimitive(JsonPopulator, t, JStr(s)).value == EnumV(t.enumName, s)
  {
  }

  /** A number bound to a `String` property passes through as a `Long`, which
      the setter refuses. */
  lemma NumberIntoStringFails(flavor: Flavor, u: ClassTable, p: PropDesc, m: map<string, JValue>)
    requires p.name in m && m[p.name].JNum?
    requires p.setter.Some? && Settable(p.setter.value) && p.setter.value.params[0] == StringT
    ensures PropValue(flavor, u, p, m) == Failure(ArgumentMismatch(p.setter.value.name))
  {
  }

  /** List and map properties receive the parsed value unchanged. */
  lemma ListAndMapPassThrough(flavor: Flavor, u: ClassTable, t: JType, v: JValue, acc: Accessor)
    requires |acc.params| > 0 && (t == ListT || t == MapT)
    ensures Convert(flavor, u, t, v, acc) == Success(Raw(v))
  {
  }

  /** A bean property needs a JSON object, bound recursively into a new
      instance of the declared class. */
  lemma NestedBean(flavor: Flavor, u: ClassTable, cls: string, v: JValue, acc: Accessor)
    requires |acc.params| > 0 && cls in u && u[cls].instantiable
    ensures !v.JObject? ==> Convert(flavor, u, BeanT(cls), v, acc) == Failure(Incompatible(acc.name))
    ensures v.JObject? && Populate(flavor, u, cls, v.fields).Success? ==>
      Convert(flavor, u, BeanT(cls), v, acc) == Success(BeanV(cls, Populate(flavor, u, cls, v.fields).value))
  {
  }

  /** The inlined copy treats wrapper types as beans: an object cannot be
      instantiated as one, anything else is incompatible. `JSONPopulator`
      converts numbers to them. */
  lemma WrapperTargets(u: ClassTable, k: PrimKind, v: JValue, acc: Accessor)
    requires |acc.params| > 0
    ensures v.JObject? ==> Convert(InlinePopulator, u, Boxed(k), v, acc) == Failure(NotInstantiable)
    ensures !v.JObject? ==> Convert(InlinePopulator, u, Boxed(k), v, acc) == Failure(Incompatible(acc.name))
    ensures v.JNum? && IsNumeric(k) ==> Convert(JsonPopulator, u, Boxed(k), v, acc) == Success(NumberTo(k, v.n))
  {
  }
}
