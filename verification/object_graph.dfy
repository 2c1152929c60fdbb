/** The object graph a `JSONWriter` walks: a heap of objects addressed by
    references, each object being one of the kinds the writer's `process`
    distinguishes. Shared by both revisions of the writer. */
module ObjectGraph {
  import opened Wrappers
  import opened Text
  import opened JavaModel

  type Ref = nat

  /** A Java reference: `null` or a pointer into the heap. */
  datatype Val = Null | Ptr(ref: Ref)

  /** What calling a property's read method does. */
  datatype Getter = Returns(v: Val) | Throws

  /** A property as `Introspector` reports it: `readable` is false when it
      has no read method, `declaredHere` when the class itself (not a
      superclass) declares it; `ann` is the `@JSON` annotation on the read
      method. */
  datatype Property = Property(name: string, readable: bool, declaredHere: bool, ann: Option<JsonAnn>, getter: Getter)

  /** The kinds of object `process` tells apart. `display` is the object's
      `toString()`, used when it is a map key. */
  datatype Obj =
    | ClassObj(text: string)
    | BoolObj(b: bool)
    | NumObj(n: int)
    | StrObj(s: string)
    | CharObj(c: char)
    | MapObj(entries: seq<(Val, Val)>, display: string)
    | ArrayObj(elems: seq<Val>, display: string)
    | IterableObj(elems: seq<Val>, display: string)
    | LocaleObj(text: string, props: seq<Property>)
    | EnumObj(name: string, props: seq<Property>)
    | BeanObj(props: seq<Property>, display: string)

  type Heap = map<Ref, Obj>

  predicate ValIn(h: Heap, v: Val) {
    v.Ptr? ==> v.ref in h
  }

  predicate PropIn(h: Heap, p: Property) {
    p.getter.Returns? ==> ValIn(h, p.getter.v)
  }

  predicate PropsIn(h: Heap, ps: seq<Property>) {
    forall k :: 0 <= k < |ps| ==> PropIn(h, ps[k])
  }

  predicate ValsIn(h: Heap, vs: seq<Val>) {
    forall k :: 0 <= k < |vs| ==> ValIn(h, vs[k])
  }

  predicate EntriesIn(h: Heap, es: seq<(Val, Val)>) {
    forall k :: 0 <= k < |es| ==> ValIn(h, es[k].0) && ValIn(h, es[k].1)
  }

  predicate ObjIn(h: Heap, o: Obj) {
    match o
    case MapObj(es, _) => EntriesIn(h, es)
    case ArrayObj(vs, _) => ValsIn(h, vs)
    case IterableObj(vs, _) => ValsIn(h, vs)
    case LocaleObj(_, ps) => PropsIn(h, ps)
    case EnumObj(_, ps) => PropsIn(h, ps)
    case BeanObj(ps, _) => PropsIn(h, ps)
    case _ => true
  }

  /** Every reference stored in the heap points into the heap. */
  predicate WellFormed(h: Heap) {
    forall r | r in h :: ObjIn(h, h[r])
  }

  /** `toString()` of a non-null reference. */
  function ToStr(h: Heap, r: Ref): string
    requires r in h
  {
    match h[r]
    case ClassObj(t) => t
    case BoolObj(b) => if b then "true" else "false"
    case NumObj(n) => IntToString(n)
    case StrObj(s) => s
    case CharObj(c) => [c]
    case MapObj(_, d) => d
    case ArrayObj(_, d) => d
    case IterableObj(_, d) => d
    case LocaleObj(t, _) => t
    case EnumObj(n, _) => n
    case BeanObj(_, d) => d
  }

  /** The properties `Introspector.getBeanInfo(c, c.getSuperclass())`
      reports: those the class itself declares. */
  function DeclaredHere(ps: seq<Property>): (r: seq<Property>)
    ensures forall k :: 0 <= k < |r| ==> r[k].declaredHere && r[k] in ps
    ensures forall p | p in ps && p.declaredHere :: p in r
  {
    if |ps| == 0 then []
    else if ps[0].declaredHere then [ps[0]] + DeclaredHere(ps[1..])
    else DeclaredHere(ps[1..])
  }

  /** The written members of a container, in order. */
  function Somes(ms: seq<Option<string>>): (r: seq<string>)
    ensures |r| <= |ms|
  {
    if |ms| == 0 then []
    else if ms[0].Some? then [ms[0].value] + Somes(ms[1..])
    else Somes(ms[1..])
  }

  /** The writers' member loop: each member that is written is preceded by
      a comma exactly when something was written before it (`hasData`). */
  function CommaFold(ms: seq<Option<string>>, hasData: bool): string {
    if |ms| == 0 then ""
    else if ms[0].None? then CommaFold(ms[1..], hasData)
    else (if hasData then "," else "") + ms[0].value + CommaFold(ms[1..], true)
  }

  /** The text has the outline of one JSON value: it starts as `null`,
      `true`, `false`, a string, an object, an array or a number starts,
      and ends as one of them ends. */
  predicate ValueShaped(t: string) {
    |t| > 0 && OpensValue(t[0]) && ClosesValue(t[|t| - 1])
  }

  /** A character a JSON value can start with. */
  predicate OpensValue(c: char) {
    c == 'n' || c == 't' || c == 'f' || c == '"' || c == '{' || c == '[' || c == '-' || IsDigit(c)
  }

  /** A character a JSON value can end with. */
  predicate ClosesValue(c: char) {
    c == 'e' || c == 'l' || c == '"' || c == '}' || c == ']' || IsDigit(c)
  }

  /** The member loop writes exactly the written members separated by commas. */
  lemma {:induction false} CommaFoldJoin(ms: seq<Option<string>>)
    ensures CommaFold(ms, false) == Join(",", Somes(ms))
    ensures CommaFold(ms, true) == if |Somes(ms)| == 0 then "" else "," + Join(",", Somes(ms))
    decreases |ms|
  {
    if |ms| > 0 {
      CommaFoldJoin(ms[1..]);
      if ms[0].Some? {
        var rest := Somes(ms[1..]);
        assert Somes(ms) == [ms[0].value] + rest;
        assert ([ms[0].value] + rest)[1..] == rest;
      }
    }
  }

  lemma {:induction false} SomesAppend(a: seq<Option<string>>, b: seq<Option<string>>)
    ensures Somes(a + b) == Somes(a) + Somes(b)
    decreases |a|
  {
    if |a| > 0 {
      assert (a + b)[1..] == a[1..] + b;
      SomesAppend(a[1..], b);
      if a[0].Some? {
        assert Somes(a + b) == [a[0].value] + Somes(a[1..] + b);
      }
    } else {
      assert a + b == b;
    }
  }
}
