/** Descriptors of the Java classes the plugin reflects on: declared types of
    setter and method parameters, the `@JSON` and `@SMDMethod` annotations,
    and the class table the populator and the SMD lookup consult. Reflection
    itself is not modelled; these descriptors are what it would report. */
module JavaModel {
  import opened Wrappers

  datatype PrimKind = BooleanK | ByteK | ShortK | IntK | LongK | FloatK | DoubleK | CharK

  /** A declared Java type. `Prim(k)` is the primitive, `Boxed(k)` its wrapper
      class; a `BeanT` names an entry of the class table (`java.lang.Object`
      included). */
  datatype JType =
    | Prim(kind: PrimKind)
    | Boxed(kind: PrimKind)
    | StringT
    | EnumT(enumName: string, constants: seq<string>)
    | ListT
    | MapT
    | ArrayT(component: JType)
    | BeanT(cls: string)

  const ObjectClass: string := "java.lang.Object"

  /** The `@JSON` annotation's `serialize`, `deserialize` and `name` elements. */
  datatype JsonAnn = JsonAnn(serialize: bool, deserialize: bool, name: string)

  /** A property's write method as the populator sees it. */
  datatype Setter = Setter(name: string, isPublic: bool, params: seq<JType>, ann: Option<JsonAnn>)

  /** A bean property: `setter` is `None` for a read-only property (such as
      `class`, whose reader is `getClass`). */
  datatype PropDesc = PropDesc(name: string, setter: Option<Setter>)

  /** The `@SMDMethod` annotation; `alias` is "" when not given. */
  datatype SmdAnn = SmdAnn(alias: string)

  /** A public method: the class or interface declaring it, its
      `@SMDMethod` annotation when present, and for each parameter the name
      given by its `@SMDMethodParameter`, if any. Two descriptors are equal
      exactly when `Method.equals` holds of the methods. */
  datatype MethodDesc = MethodDesc(
    owner: string,
    name: string,
    params: seq<JType>,
    smd: Option<SmdAnn>,
    paramNames: seq<Option<string>>)

  /** A class: bean properties in introspection order, public methods in
      `getMethods` order, directly implemented interfaces in declaration
      order, and the superclass (`None` for interfaces and `Object`).
      `instantiable` says whether `Class.newInstance` succeeds. */
  datatype ClassDesc = ClassDesc(
    props: seq<PropDesc>,
    methods: seq<MethodDesc>,
    interfaces: seq<string>,
    superclass: Option<string>,
    instantiable: bool)

  type ClassTable = map<string, ClassDesc>

  /** Every class named by `t` is in the table. */
  predicate TypeIn(u: ClassTable, t: JType) {
    match t
    case BeanT(c) => c in u
    case ArrayT(c) => TypeIn(u, c)
    case _ => true
  }

  /** The table is closed: every class a setter parameter, a method
      parameter, an interface list or a superclass names is in it. */
  predicate Closed(u: ClassTable) {
    forall c | c in u ::
      && (forall p | p in u[c].props && p.setter.Some? :: forall t | t in p.setter.value.params :: TypeIn(u, t))
      && (forall m | m in u[c].methods :: forall t | t in m.params :: TypeIn(u, t))
      && (forall i | i in u[c].interfaces :: i in u)
      && (u[c].superclass.Some? ==> u[c].superclass.value in u)
  }

  /** The primitive kinds `Number` narrows to exactly: `byte`, `short`,
      `int` and `long`. */
  predicate IsIntegral(k: PrimKind) {
    k == ByteK || k == ShortK || k == IntK || k == LongK
  }

  /** 2 to the width of an integral kind. */
  function Modulus(k: PrimKind): nat
    requires IsIntegral(k)
  {
    match k
    case ByteK => 0x100
    case ShortK => 0x1_0000
    case IntK => 0x1_0000_0000
    case _ => 0x1_0000_0000_0000_0000
  }

  /** The values of an integral kind: two's complement of its width. */
  predicate InRange(k: PrimKind, x: int)
    requires IsIntegral(k)
  {
    -(Modulus(k) / 2) <= x < Modulus(k) / 2
  }

  /** Java's narrowing primitive conversion to an integral kind: keep the
      low-order bits, read them as two's complement. */
  function Narrow(x: int, k: PrimKind): (r: int)
    requires IsIntegral(k)
    ensures InRange(k, r)
    ensures InRange(k, x) ==> r == x
    ensures (x - r) % Modulus(k) == 0
  {
    var m := Modulus(k);
    var r := (x + m / 2) % m - m / 2;
    MultipleOfModulus(x + m / 2, m);
    r
  }

  /** `a` less its remainder modulo `m` is a multiple of `m`. */
  lemma MultipleOfModulus(a: int, m: nat)
    requires m == 0x100 || m == 0x1_0000 || m == 0x1_0000_0000 || m == 0x1_0000_0000_0000_0000
    ensures (a - a % m) % m == 0
  {
    if m == 0x100 {
      Cleared8(a);
    } else if m == 0x1_0000 {
      Cleared16(a);
    } else if m == 0x1_0000_0000 {
      Cleared32(a);
    } else {
      Cleared64(a);
    }
  }

  lemma Cleared8(a: int)
    ensures (a - a % 0x100) % 0x100 == 0
  {
  }

  lemma Cleared16(a: int)
    ensures (a - a % 0x1_0000) % 0x1_0000 == 0
  {
  }

  lemma Cleared32(a: int)
    ensures (a - a % 0x1_0000_0000) % 0x1_0000_0000 == 0
  {
  }

  lemma Cleared64(a: int)
    ensures (a - a % 0x1_0000_0000_0000_0000) % 0x1_0000_0000_0000_0000 == 0
  {
  }

  /** The two byte conversions the populator's examples use. */
  lemma ByteNarrowing()
    ensures Narrow(3, ByteK) == 3 && Narrow(300, ByteK) == 44
  {
    assert (300 + 0x80) % 0x100 == 172;
  }

  /** Java's identity and widening primitive conversions (section 5.1.2 of
      the Java Language Specification). */
  predicate Widens(from: PrimKind, to: PrimKind) {
    || from == to
    || (from == ByteK && to in {ShortK, IntK, LongK, FloatK, DoubleK})
    || (from == ShortK && to in {IntK, LongK, FloatK, DoubleK})
    || (from == CharK && to in {IntK, LongK, FloatK, DoubleK})
    || (from == IntK && to in {LongK, FloatK, DoubleK})
    || (from == LongK && to in {FloatK, DoubleK})
    || (from == FloatK && to == DoubleK)
  }
}
