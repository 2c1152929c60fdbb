/** `JSONWriter` of the older revision: only exclude patterns, no dropping of
    null properties, no special case for enums or locales (they are written
    as beans), map keys written as values, and an iterator loop that does
    not consume an excluded element.

    As in `JsonWriter`, `anc` is the stack of objects being written and
    `path` is `exprStack`. */
module LegacyJsonWriter {
  import opened Wrappers
  import opened Text
  import opened Escape
  import opened PathFilter
  import opened JavaModel
  import opened ObjectGraph
  import JsonWriter
  import Visited

  /** The writer's settings for one `write(object, excludeProperties)` call;
      `excludes` is `None` for a null collection. */
  datatype Config = Config(excludes: Option<seq<Matcher>>, ignoreHierarchy: bool)

  /** What ends a `write`: a `JSONException` from a throwing read method, or
      a loop that never ends (`Diverges`). */
  datatype WriteError = GetterFailed(property: string) | Diverges

  /** Paths are only built for a non-null, non-empty exclude collection. */
  predicate Build(cfg: Config) {
    cfg.excludes.Some? && |cfg.excludes.value| > 0
  }

  predicate Excluded(cfg: Config, e: string)
    requires Build(cfg)
  {
    LegacyShouldExclude(cfg.excludes.value, e)
  }

  /** Java's `int` arithmetic: `x` wrapped into the 32-bit two's complement range. */
  function Wrap32(x: int): (r: int)
    ensures -0x8000_0000 <= r < 0x8000_0000
    ensures -0x8000_0000 <= x < 0x8000_0000 ==> r == x
  {
    Narrow(x, IntK)
  }

  predicate IsInt32(x: int) {
    -0x8000_0000 <= x < 0x8000_0000
  }

  /** Every `int` value the iterator loop's counter can take. */
  const Int32Count: nat := 0x1_0000_0000

  function Value(h: Heap, cfg: Config, root: Val, anc: seq<Ref>, path: string, v: Val): (t: Result<string, WriteError>)
    requires WellFormed(h) && ValIn(h, v)
    ensures t.Success? ==> ValueShaped(t.value)
    ensures v.Null? ==> t == Success("null")
    decreases Visited.Unvisited(h, anc), 3, 0
  {
    match v
    case Null => Success("null")
    case Ptr(r) =>
      if r in anc then
        if h[r].StrObj? then Process(h, cfg, root, anc, path, r) else Success("null")
      else Process(h, cfg, root, anc, path, r)
  }

  /** `process(object, method)`: a locale or an enum is not told apart from
      a bean here. */
  function Process(h: Heap, cfg: Config, root: Val, anc: seq<Ref>, path: string, r: Ref): (t: Result<string, WriteError>)
    requires WellFormed(h) && r in h && (r !in anc || h[r].StrObj?)
    ensures t.Success? ==> ValueShaped(t.value)
    ensures h[r].StrObj? || h[r].ClassObj? || h[r].BoolObj? || h[r].NumObj? || h[r].CharObj? ==> t.Success?
    decreases Visited.Unvisited(h, anc), 2, 0
  {
    match h[r]
    case ClassObj(t) => Success(EscapeString(t))
    case BoolObj(b) => Success(if b then "true" else "false")
    case NumObj(n) => Success(IntToString(n))
    case StrObj(s) => Success(EscapeString(s))
    case CharObj(c) => Success(EscapeString([c]))
    case MapObj(es, _) =>
      Visited.PushShrinks(h, anc, r);
      var ms :- EntryMembers(h, cfg, root, anc + [r], path, es, 0);
      Success("{" + CommaFold(ms, false) + "}")
    case ArrayObj(vs, _) =>
      Visited.PushShrinks(h, anc, r);
      var ms :- ElemMembers(h, cfg, root, anc + [r], path, vs, 0);
      Success("[" + CommaFold(ms, false) + "]")
    case IterableObj(vs, _) =>
      Visited.PushShrinks(h, anc, r);
      var ms :- IterMembers(h, cfg, root, anc + [r], path, vs, 0, 0);
      Success("[" + Join(",", ms) + "]")
    case LocaleObj(_, ps) =>
      Visited.PushShrinks(h, anc, r);
      Bean(h, cfg, root, anc + [r], path, r, ps)
    case EnumObj(_, ps) =>
      Visited.PushShrinks(h, anc, r);
      Bean(h, cfg, root, anc + [r], path, r, ps)
    case BeanObj(ps, _) =>
      Visited.PushShrinks(h, anc, r);
      Bean(h, cfg, root, anc + [r], path, r, ps)
  }

  function Bean(h: Heap, cfg: Config, root: Val, here: seq<Ref>, path: string, r: Ref, ps: seq<Property>): (t: Result<string, WriteError>)
    requires WellFormed(h) && PropsIn(h, ps)
    ensures t.Success? ==> |t.value| >= 2 && t.value[0] == '{' && t.value[|t.value| - 1] == '}'
    decreases Visited.Unvisited(h, here), 6, 0
  {
    var props := if Ptr(r) == root && cfg.ignoreHierarchy then DeclaredHere(ps) else ps;
    var ms :- PropMembers(h, cfg, root, here, path, props, 0);
    Success("{" + CommaFold(ms, false) + "}")
  }

  /** One iteration of `bean`'s loop; only `class` is reserved, and a null
      value is written like any other. */
  function PropMember(h: Heap, cfg: Config, root: Val, here: seq<Ref>, path: string, p: Property): Result<Option<string>, WriteError>
    requires WellFormed(h) && PropIn(h, p)
    decreases Visited.Unvisited(h, here), 4, 0
  {
    if !p.readable then Success(None)
    else if p.ann.Some? && !p.ann.value.serialize then Success(None)
    else if p.name == "class" then Success(None)
    else
      var name := JsonWriter.WrittenName(p);
      if Build(cfg) && Excluded(cfg, ExpandName(path, name)) then Success(None)
      else
        var childPath := if Build(cfg) then ExpandName(path, name) else path;
        match p.getter
        case Throws => Failure(GetterFailed(p.name))
        case Returns(v) =>
          var t :- Value(h, cfg, root, here, childPath, v);
          Success(Some(JsonWriter.Member(name, t)))
  }

  function PropMembers(h: Heap, cfg: Config, root: Val, here: seq<Ref>, path: string, ps: seq<Property>, i: nat): (r: Result<seq<Option<string>>, WriteError>)
    requires WellFormed(h) && PropsIn(h, ps) && i <= |ps|
    ensures r.Success? ==> |r.value| == |ps| - i
    ensures r.Success? ==> forall k :: i <= k < |ps| ==>
      PropMember(h, cfg, root, here, path, ps[k]).Success? && r.value[k - i] == PropMember(h, cfg, root, here, path, ps[k]).value
    decreases Visited.Unvisited(h, here), 5, |ps| - i
  {
    if i == |ps| then Success([])
    else
      var m :- PropMember(h, cfg, root, here, path, ps[i]);
      var rest :- PropMembers(h, cfg, root, here, path, ps, i + 1);
      Success([m] + rest)
  }

  /** One iteration of the loop over a Java array. */
  function ElemMember(h: Heap, cfg: Config, root: Val, here: seq<Ref>, path: string, vs: seq<Val>, k: nat): Result<Option<string>, WriteError>
    requires WellFormed(h) && ValsIn(h, vs) && k < |vs|
    decreases Visited.Unvisited(h, here), 4, 0
  {
    if Build(cfg) && Excluded(cfg, ExpandIndex(path, k)) then Success(None)
    else
      var childPath := if Build(cfg) then ExpandIndex(path, k) else path;
      var t :- Value(h, cfg, root, here, childPath, vs[k]);
      Success(Some(t))
  }

  function ElemMembers(h: Heap, cfg: Config, root: Val, here: seq<Ref>, path: string, vs: seq<Val>, i: nat): (r: Result<seq<Option<string>>, WriteError>)
    requires WellFormed(h) && ValsIn(h, vs) && i <= |vs|
    ensures r.Success? ==> |r.value| == |vs| - i
    ensures r.Success? ==> forall k :: i <= k < |vs| ==>
      ElemMember(h, cfg, root, here, path, vs, k).Success? && r.value[k - i] == ElemMember(h, cfg, root, here, path, vs, k).value
    decreases Visited.Unvisited(h, here), 5, |vs| - i
  {
    if i == |vs| then Success([])
    else
      var m :- ElemMember(h, cfg, root, here, path, vs, i);
      var rest :- ElemMembers(h, cfg, root, here, path, vs, i + 1);
      Success([m] + rest)
  }

  /** The iterator loop's search, for any test `skip` of an index: the
      first value of the wrapping `int` counter, starting at `i` and trying
      at most `budget` values, that `skip` does not reject. */
  function FirstKept(skip: int -> bool, i: int, budget: nat): (r: Option<int>)
    ensures r.Some? ==> IsInt32(r.value) && !skip(r.value)
    decreases budget
  {
    if budget == 0 then None
    else if IsInt32(i) && !skip(i) then Some(i)
    else FirstKept(skip, Wrap32(i + 1), budget - 1)
  }

  /** The test the loop applies to an index: its path is excluded. */
  function IndexExcluded(cfg: Config, path: string): int -> bool
    requires Build(cfg)
  {
    n => Excluded(cfg, ExpandIndex(path, n))
  }

  /** The search for the next index whose path is not excluded. */
  function NextIncluded(cfg: Config, path: string, i: int, budget: nat): (r: Option<int>)
    requires Build(cfg)
    ensures r.Some? ==> IsInt32(r.value) && !Excluded(cfg, ExpandIndex(path, r.value))
  {
    FirstKept(IndexExcluded(cfg, path), i, budget)
  }

  /** The iterator loop from element `j` on, with the counter at `i`. An
      excluded index advances the counter but not the iterator, so every
      element is written, each under the next index that is not excluded;
      when no `int` index is left, the loop never ends. */
  function IterMembers(h: Heap, cfg: Config, root: Val, here: seq<Ref>, path: string, vs: seq<Val>, j: nat, i: int): (r: Result<seq<string>, WriteError>)
    requires WellFormed(h) && ValsIn(h, vs) && j <= |vs|
    ensures r.Success? ==> |r.value| == |vs| - j
    decreases Visited.Unvisited(h, here), 5, |vs| - j
  {
    if j == |vs| then Success([])
    else if !Build(cfg) then
      var t :- Value(h, cfg, root, here, path, vs[j]);
      var rest :- IterMembers(h, cfg, root, here, path, vs, j + 1, Wrap32(i + 1));
      Success([t] + rest)
    else
      match NextIncluded(cfg, path, i, Int32Count)
      case None => Failure(Diverges)
      case Some(n) =>
        var t :- Value(h, cfg, root, here, ExpandIndex(path, n), vs[j]);
        var rest :- IterMembers(h, cfg, root, here, path, vs, j + 1, Wrap32(n + 1));
        Success([t] + rest)
  }

  /** One iteration of `map`'s loop: the key itself is written as a value
      (so a string key is quoted, a number key is not), at the entry's path. */
  function EntryMember(h: Heap, cfg: Config, root: Val, here: seq<Ref>, path: string, es: seq<(Val, Val)>, k: nat): Result<Option<string>, WriteError>
    requires WellFormed(h) && EntriesIn(h, es) && k < |es|
    decreases Visited.Unvisited(h, here), 4, 0
  {
    var key := es[k].0;
    if Build(cfg) && key.Null? then Success(None)
    else if Build(cfg) && Excluded(cfg, ExpandName(path, ToStr(h, key.ref))) then Success(None)
    else
      var childPath := if Build(cfg) then ExpandName(path, ToStr(h, key.ref)) else path;
      var kt :- Value(h, cfg, root, here, childPath, key);
      var t :- Value(h, cfg, root, here, childPath, es[k].1);
      Success(Some(kt + ":" + t))
  }

  function EntryMembers(h: Heap, cfg: Config, root: Val, here: seq<Ref>, path: string, es: seq<(Val, Val)>, i: nat): (r: Result<seq<Option<string>>, WriteError>)
    requires WellFormed(h) && EntriesIn(h, es) && i <= |es|
    ensures r.Success? ==> |r.value| == |es| - i
    ensures r.Success? ==> forall k :: i <= k < |es| ==>
      EntryMember(h, cfg, root, here, path, es, k).Success? && r.value[k - i] == EntryMember(h, cfg, root, here, path, es, k).value
    decreases Visited.Unvisited(h, here), 5, |es| - i
  {
    if i == |es| then Success([])
    else
      var m :- EntryMember(h, cfg, root, here, path, es, i);
      var rest :- EntryMembers(h, cfg, root, here, path, es, i + 1);
      Success([m] + rest)
  }

  /** `write(object, excludeProperties)`. */
  function Write(h: Heap, root: Val, excludes: Option<seq<Matcher>>, ignoreHierarchy: bool): (t: Result<string, WriteError>)
    requires WellFormed(h) && ValIn(h, root)
    ensures t.Success? ==> ValueShaped(t.value)
    ensures root.Null? ==> t == Success("null")
  {
    Value(h, Config(excludes, ignoreHierarchy), root, [], "", root)
  }

  /** The counter after `m` increments from `i`. */
  function Counter(i: int, m: nat): int {
    Wrap32(i + m)
  }

  lemma WrapShift(x: int, m: int)
    ensures Wrap32(Wrap32(x) + m) == Wrap32(x + m)
  {
    var q := (x + 0x8000_0000) / 0x1_0000_0000;
    assert Wrap32(x) == x - q * 0x1_0000_0000;
    var a := x + m + 0x8000_0000;
    assert (a - q * 0x1_0000_0000) % 0x1_0000_0000 == a % 0x1_0000_0000;
  }

  lemma CounterShift(i: int, m: nat)
    ensures Counter(Wrap32(i + 1), m) == Counter(i, m + 1)
  {
    WrapShift(i + 1, m);
  }

  /** The search finds nothing exactly when every counter value it tries
      gives an excluded path. */
  lemma NextIncludedNone(cfg: Config, path: string, i: int, budget: nat)
    requires Build(cfg) && IsInt32(i)
    ensures NextIncluded(cfg, path, i, budget).None? <==>
      forall m: nat :: m < budget ==> Excluded(cfg, ExpandIndex(path, Counter(i, m)))
  {
    var skip := IndexExcluded(cfg, path);
    FirstKeptNone(skip, i, budget);
    assert forall m: nat :: skip(Counter(i, m)) == Excluded(cfg, ExpandIndex(path, Counter(i, m)));
  }

  /** The search finds nothing exactly when `skip` rejects every value the
      counter takes. */
  lemma FirstKeptNone(skip: int -> bool, i: int, budget: nat)
    requires IsInt32(i)
    ensures FirstKept(skip, i, budget).None? <==> forall m: nat :: m < budget ==> skip(Counter(i, m))
  {
    if FirstKept(skip, i, budget).None? {
      NoneAllSkipped(skip, i, budget);
    } else if forall m: nat :: m < budget ==> skip(Counter(i, m)) {
      AllSkippedNone(skip, i, budget);
    }
  }

  lemma {:induction false} NoneAllSkipped(skip: int -> bool, i: int, budget: nat)
    requires IsInt32(i) && FirstKept(skip, i, budget).None?
    ensures forall m: nat :: m < budget ==> skip(Counter(i, m))
    decreases budget
  {
    if budget > 0 {
      var i' := Wrap32(i + 1);
      CounterZero(i);
      NoneAllSkipped(skip, i', budget - 1);
      forall m: nat | 0 < m < budget
        ensures skip(Counter(i, m))
      {
        CounterShift(i, m - 1);
      }
    }
  }

  lemma {:induction false} AllSkippedNone(skip: int -> bool, i: int, budget: nat)
    requires IsInt32(i)
    requires forall m: nat :: m < budget ==> skip(Counter(i, m))
    ensures FirstKept(skip, i, budget).None?
    decreases budget
  {
    if budget > 0 {
      CounterZero(i);
      assert skip(Counter(i, 0));
      var i' := Wrap32(i + 1);
      forall m: nat | m < budget - 1
        ensures skip(Counter(i', m))
      {
        CounterShift(i, m);
        assert skip(Counter(i, m + 1));
      }
      AllSkippedNone(skip, i', budget - 1);
    }
  }

  /** A value the search finds is the first one it tries that `skip` does
      not reject: every counter value before it was rejected. */
  lemma {:induction false} FirstKeptFirst(skip: int -> bool, i: int, budget: nat) returns (m: nat)
    requires IsInt32(i) && FirstKept(skip, i, budget).Some?
    ensures m < budget && Counter(i, m) == FirstKept(skip, i, budget).value
    ensures forall m': nat :: m' < m ==> skip(Counter(i, m'))
    decreases budget
  {
    CounterZero(i);
    if !skip(i) {
      m := 0;
    } else {
      var i' := Wrap32(i + 1);
      var m0 := FirstKeptFirst(skip, i', budget - 1);
      m := m0 + 1;
      CounterShift(i, m0);
      forall m': nat | 0 < m' < m
        ensures skip(Counter(i, m'))
      {
        CounterShift(i, m' - 1);
        assert skip(Counter(i', m' - 1));
      }
    }
  }

  /** The index the search finds is the first non-excluded one from `i`:
      every counter value tried before it gives an excluded path. */
  lemma NextIncludedFirst(cfg: Config, path: string, i: int, budget: nat) returns (m: nat)
    requires Build(cfg) && IsInt32(i) && NextIncluded(cfg, path, i, budget).Some?
    ensures m < budget && Counter(i, m) == NextIncluded(cfg, path, i, budget).value
    ensures forall m': nat :: m' < m ==> Excluded(cfg, ExpandIndex(path, Counter(i, m')))
  {
    var skip := IndexExcluded(cfg, path);
    m := FirstKeptFirst(skip, i, budget);
    assert forall m': nat :: skip(Counter(i, m')) == Excluded(cfg, ExpandIndex(path, Counter(i, m')));
  }

  lemma CounterZero(i: int)
    requires IsInt32(i)
    ensures Counter(i, 0) == i
  {
  }

  /** Every `int` value is reached by the counter from any start. */
  lemma CounterReaches(i: int, n: int) returns (m: nat)
    requires IsInt32(i) && IsInt32(n)
    ensures m < Int32Count && Counter(i, m) == n
  {
    m := (n - i) % 0x1_0000_0000;
    var q := (n - i) / 0x1_0000_0000;
    assert i + m + 0x8000_0000 == (n + 0x8000_0000) - q * 0x1_0000_0000;
    assert (i + m + 0x8000_0000) % 0x1_0000_0000 == (n + 0x8000_0000) % 0x1_0000_0000;
  }

  /** Over the full `int` range, the search fails exactly when every index
      path is excluded. */
  lemma NoIncludedIndex(cfg: Config, path: string, i: int)
    requires Build(cfg) && IsInt32(i)
    ensures NextIncluded(cfg, path, i, Int32Count).None? <==>
      forall n | IsInt32(n) :: Excluded(cfg, ExpandIndex(path, n))
  {
    NextIncludedNone(cfg, path, i, Int32Count);
    if NextIncluded(cfg, path, i, Int32Count).None? {
      forall n | IsInt32(n)
        ensures Excluded(cfg, ExpandIndex(path, n))
      {
        var m := CounterReaches(i, n);
      }
    } else {
      var m: nat :| m < Int32Count && !Excluded(cfg, ExpandIndex(path, Counter(i, m)));
      assert IsInt32(Counter(i, m));
    }
  }

  /** With elements left and every index path excluded, the iterator loop
      never ends. */
  lemma IterationDiverges(h: Heap, cfg: Config, root: Val, here: seq<Ref>, path: string, vs: seq<Val>, j: nat, i: int)
    requires WellFormed(h) && ValsIn(h, vs) && j < |vs| && Build(cfg) && IsInt32(i)
    requires forall n | IsInt32(n) :: Excluded(cfg, ExpandIndex(path, n))
    ensures IterMembers(h, cfg, root, here, path, vs, j, i) == Failure(Diverges)
  {
    NoIncludedIndex(cfg, path, i);
  }

  /** The element the iterator holds next is always written, under the
      first index at or after the counter that is not excluded: an excluded
      index never removes an element. */
  lemma IterElementWritten(h: Heap, cfg: Config, root: Val, here: seq<Ref>, path: string, vs: seq<Val>, j: nat, i: int)
    requires WellFormed(h) && ValsIn(h, vs) && j < |vs| && Build(cfg)
    requires IterMembers(h, cfg, root, here, path, vs, j, i).Success?
    ensures NextIncluded(cfg, path, i, Int32Count).Some?
    ensures var n := NextIncluded(cfg, path, i, Int32Count).value;
      && !Excluded(cfg, ExpandIndex(path, n))
      && Value(h, cfg, root, here, ExpandIndex(path, n), vs[j]).Success?
      && IterMembers(h, cfg, root, here, path, vs, j, i).value[0] == Value(h, cfg, root, here, ExpandIndex(path, n), vs[j]).value
    ensures IsInt32(i) ==>
      exists m: nat :: m < Int32Count && Counter(i, m) == NextIncluded(cfg, path, i, Int32Count).value &&
        forall m': nat :: m' < m ==> Excluded(cfg, ExpandIndex(path, Counter(i, m')))
  {
    if IsInt32(i) {
      var m := NextIncludedFirst(cfg, path, i, Int32Count);
    }
  }

  /** With no paths built, the counter plays no part in the output. */
  lemma {:induction false} PlainIgnoresCounter(h: Heap, cfg: Config, root: Val, here: seq<Ref>, path: string, vs: seq<Val>, j: nat, i: int, i': int)
    requires WellFormed(h) && ValsIn(h, vs) && j <= |vs| && !Build(cfg)
    ensures IterMembers(h, cfg, root, here, path, vs, j, i) == IterMembers(h, cfg, root, here, path, vs, j, i')
    decreases |vs| - j
  {
    if j < |vs| {
      PlainIgnoresCounter(h, cfg, root, here, path, vs, j + 1, Wrap32(i + 1), Wrap32(i' + 1));
    }
  }

  /** One step of the loop when no paths are built: the element at `j`,
      then the rest. */
  lemma IterStepPlain(h: Heap, cfg: Config, root: Val, here: seq<Ref>, path: string, vs: seq<Val>, j: nat, i: int)
    requires WellFormed(h) && ValsIn(h, vs) && j < |vs| && !Build(cfg)
    requires IterMembers(h, cfg, root, here, path, vs, j, i).Success?
    ensures Value(h, cfg, root, here, path, vs[j]).Success?
    ensures IterMembers(h, cfg, root, here, path, vs, j + 1, i).Success?
    ensures IterMembers(h, cfg, root, here, path, vs, j, i).value ==
      [Value(h, cfg, root, here, path, vs[j]).value] + IterMembers(h, cfg, root, here, path, vs, j + 1, i).value
  {
    PlainIgnoresCounter(h, cfg, root, here, path, vs, j + 1, Wrap32(i + 1), i);
  }

  /** With no paths built, each element is written in order under the
      collection's own path. */
  lemma {:induction false} IterMembersPlain(h: Heap, cfg: Config, root: Val, here: seq<Ref>, path: string, vs: seq<Val>, j: nat, i: int, n: nat)
    requires WellFormed(h) && ValsIn(h, vs) && j <= n < |vs| && !Build(cfg)
    requires IterMembers(h, cfg, root, here, path, vs, j, i).Success?
    ensures Value(h, cfg, root, here, path, vs[n]).Success?
    ensures IterMembers(h, cfg, root, here, path, vs, j, i).value[n - j] == Value(h, cfg, root, here, path, vs[n]).value
    decreases n - j
  {
    IterStepPlain(h, cfg, root, here, path, vs, j, i);
    if j < n {
      IterMembersPlain(h, cfg, root, here, path, vs, j + 1, i, n);
    }
  }

  /** The older array loop skips correctly: with paths built, element `k`
      is left out exactly when its path `parent[k]` is excluded, and
      otherwise is its value written under that path. */
  lemma LegacyElemIncluded(h: Heap, cfg: Config, root: Val, here: seq<Ref>, path: string, vs: seq<Val>, k: nat)
    requires WellFormed(h) && ValsIn(h, vs) && k < |vs| && Build(cfg)
    requires ElemMember(h, cfg, root, here, path, vs, k).Success?
    ensures ElemMember(h, cfg, root, here, path, vs, k).value.None? <==> Excluded(cfg, ExpandIndex(path, k))
    ensures ElemMember(h, cfg, root, here, path, vs, k).value.Some? ==>
      && Value(h, cfg, root, here, ExpandIndex(path, k), vs[k]).Success?
      && ElemMember(h, cfg, root, here, path, vs, k).value == Some(Value(h, cfg, root, here, ExpandIndex(path, k), vs[k]).value)
  {
  }

  /** In a written Java array with paths built, element `k` is left out
      exactly when `parent[k]` is excluded; the elements after it keep their
      indexes. */
  lemma ArrayElementWrittenIffIncluded(h: Heap, cfg: Config, root: Val, here: seq<Ref>, path: string, vs: seq<Val>, k: nat)
    requires WellFormed(h) && ValsIn(h, vs) && k < |vs| && Build(cfg)
    requires ElemMembers(h, cfg, root, here, path, vs, 0).Success?
    ensures ElemMembers(h, cfg, root, here, path, vs, 0).value[k].None? <==> Excluded(cfg, ExpandIndex(path, k))
    ensures ElemMembers(h, cfg, root, here, path, vs, 0).value[k].Some? ==>
      && Value(h, cfg, root, here, ExpandIndex(path, k), vs[k]).Success?
      && ElemMembers(h, cfg, root, here, path, vs, 0).value[k] == Some(Value(h, cfg, root, here, ExpandIndex(path, k), vs[k]).value)
  {
    assert ElemMembers(h, cfg, root, here, path, vs, 0).value[k] == ElemMember(h, cfg, root, here, path, vs, k).value;
    LegacyElemIncluded(h, cfg, root, here, path, vs, k);
  }

  /** A map is written as `{`, its written entries joined by commas, `}`. */
  lemma MapBody(h: Heap, cfg: Config, root: Val, anc: seq<Ref>, path: string, r: Ref)
    requires WellFormed(h) && r in h && r !in anc && h[r].MapObj?
    requires Process(h, cfg, root, anc, path, r).Success?
    ensures EntryMembers(h, cfg, root, anc + [r], path, h[r].entries, 0).Success?
    ensures Process(h, cfg, root, anc, path, r).value
      == "{" + Join(",", Somes(EntryMembers(h, cfg, root, anc + [r], path, h[r].entries, 0).value)) + "}"
  {
    CommaFoldJoin(EntryMembers(h, cfg, root, anc + [r], path, h[r].entries, 0).value);
  }

  /** A Java array is written as `[`, its written elements joined by
      commas, `]`. */
  lemma ArrayBody(h: Heap, cfg: Config, root: Val, anc: seq<Ref>, path: string, r: Ref)
    requires WellFormed(h) && r in h && r !in anc && h[r].ArrayObj?
    requires Process(h, cfg, root, anc, path, r).Success?
    ensures ElemMembers(h, cfg, root, anc + [r], path, h[r].elems, 0).Success?
    ensures Process(h, cfg, root, anc, path, r).value
      == "[" + Join(",", Somes(ElemMembers(h, cfg, root, anc + [r], path, h[r].elems, 0).value)) + "]"
  {
    CommaFoldJoin(ElemMembers(h, cfg, root, anc + [r], path, h[r].elems, 0).value);
  }

  /** A bean, a locale or an enum is written as `{`, its written property
      members joined by commas, `}`. */
  lemma BeanBody(h: Heap, cfg: Config, root: Val, here: seq<Ref>, path: string, r: Ref, ps: seq<Property>)
    requires WellFormed(h) && PropsIn(h, ps)
    requires Bean(h, cfg, root, here, path, r, ps).Success?
    ensures var props := if Ptr(r) == root && cfg.ignoreHierarchy then DeclaredHere(ps) else ps;
      && PropMembers(h, cfg, root, here, path, props, 0).Success?
      && Bean(h, cfg, root, here, path, r, ps).value
         == "{" + Join(",", Somes(PropMembers(h, cfg, root, here, path, props, 0).value)) + "}"
  {
    var props := if Ptr(r) == root && cfg.ignoreHierarchy then DeclaredHere(ps) else ps;
    CommaFoldJoin(PropMembers(h, cfg, root, here, path, props, 0).value);
  }

  /** A null map key is written as `null` when no paths are built, and the
      entry is skipped otherwise. */
  lemma NullKeyEntry(h: Heap, cfg: Config, root: Val, here: seq<Ref>, path: string, es: seq<(Val, Val)>, k: nat)
    requires WellFormed(h) && EntriesIn(h, es) && k < |es| && es[k].0.Null?
    ensures Build(cfg) ==> EntryMember(h, cfg, root, here, path, es, k) == Success(None)
    ensures !Build(cfg) && Value(h, cfg, root, here, path, es[k].1).Success? ==>
      EntryMember(h, cfg, root, here, path, es, k) == Success(Some("null:" + Value(h, cfg, root, here, path, es[k].1).value))
  {
    assert Value(h, cfg, root, here, path, Null) == Success("null");
    assert "null" + ":" == "null:";
  }

  /** A number key is written unquoted, unlike in the current writer. */
  lemma NumberKeyUnquoted(h: Heap, cfg: Config, root: Val, here: seq<Ref>, path: string, es: seq<(Val, Val)>, k: nat)
    requires WellFormed(h) && EntriesIn(h, es) && k < |es|
    requires es[k].0.Ptr? && es[k].0.ref !in here && h[es[k].0.ref].NumObj?
    requires EntryMember(h, cfg, root, here, path, es, k).Success?
    requires EntryMember(h, cfg, root, here, path, es, k).value.Some?
    ensures StartsWith(EntryMember(h, cfg, root, here, path, es, k).value.value, IntToString(h[es[k].0.ref].n) + ":")
  {
    var key := es[k].0;
    var childPath := if Build(cfg) then ExpandName(path, ToStr(h, key.ref)) else path;
    var kt := IntToString(h[key.ref].n);
    assert Value(h, cfg, root, here, childPath, key) == Success(kt);
    var t := Value(h, cfg, root, here, childPath, es[k].1).value;
    assert EntryMember(h, cfg, root, here, path, es, k).value.value == kt + ":" + t;
    assert (kt + ":" + t)[..|kt + ":"|] == kt + ":";
  }

  /** A property is written exactly when it is readable, not marked
      `serialize=false`, not `class`, and its path is not excluded; a null
      value is written as `null`. */
  lemma PropMemberWritten(h: Heap, cfg: Config, root: Val, here: seq<Ref>, path: string, p: Property)
    requires WellFormed(h) && PropIn(h, p)
    requires PropMember(h, cfg, root, here, path, p).Success?
    ensures PropMember(h, cfg, root, here, path, p).value.Some? <==>
      && p.readable
      && !(p.ann.Some? && !p.ann.value.serialize)
      && p.name != "class"
      && !(Build(cfg) && Excluded(cfg, ExpandName(path, JsonWriter.WrittenName(p))))
    ensures PropMember(h, cfg, root, here, path, p).value.Some? && p.getter == Returns(Null) ==>
      PropMember(h, cfg, root, here, path, p).value.value == JsonWriter.Member(JsonWriter.WrittenName(p), "null")
  {
  }

  /** A two-element collection `[1, 2]` (object 0) and its elements. */
  function IterHeap(): (h: Heap)
    ensures WellFormed(h)
  {
    map[0 := IterableObj([Ptr(1), Ptr(2)], "[1, 2]"), 1 := NumObj(1), 2 := NumObj(2)]
  }

  /** The exclude pattern `\[0\]`: the first element of the root. */
  const ExcludeFirst: Matcher := e => e == "[0]"

  const FirstExcluded := Config(Some([ExcludeFirst]), true)

  lemma IndexPaths()
    ensures ExpandIndex("", 0) == "[0]" && ExpandIndex("", 1) == "[1]" && ExpandIndex("", 2) == "[2]"
  {
    assert IntToString(0) == "0" && IntToString(1) == "1" && IntToString(2) == "2";
  }

  lemma FirstExcludedPaths()
    ensures Build(FirstExcluded)
    ensures Excluded(FirstExcluded, ExpandIndex("", 0))
    ensures !Excluded(FirstExcluded, ExpandIndex("", 1)) && !Excluded(FirstExcluded, ExpandIndex("", 2))
  {
    IndexPaths();
    assert [ExcludeFirst][0] == ExcludeFirst;
  }

  lemma IterFirstStep()
    ensures NextIncluded(FirstExcluded, "", 0, Int32Count) == Some(1)
    ensures Value(IterHeap(), FirstExcluded, Ptr(0), [0], ExpandIndex("", 1), Ptr(1)) == Success("1")
  {
    FirstExcludedPaths();
    assert Wrap32(0 + 1) == 1;
    assert NextIncluded(FirstExcluded, "", 1, Int32Count - 1) == Some(1);
    assert IntToString(1) == "1";
  }

  lemma IterSecondStep()
    ensures IterMembers(IterHeap(), FirstExcluded, Ptr(0), [0], "", [Ptr(1), Ptr(2)], 1, 2) == Success(["2"])
  {
    var h, cfg := IterHeap(), FirstExcluded;
    FirstExcludedPaths();
    assert NextIncluded(cfg, "", 2, Int32Count) == Some(2);
    assert IntToString(2) == "2";
    assert Value(h, cfg, Ptr(0), [0], ExpandIndex("", 2), Ptr(2)) == Success("2");
    assert [Ptr(1), Ptr(2)][1] == Ptr(2);
    assert Wrap32(2 + 1) == 3;
    assert IterMembers(h, cfg, Ptr(0), [0], "", [Ptr(1), Ptr(2)], 2, 3) == Success([]);
    assert ["2"] + [] == ["2"];
  }

  lemma IterBothWritten()
    ensures IterMembers(IterHeap(), FirstExcluded, Ptr(0), [0], "", [Ptr(1), Ptr(2)], 0, 0) == Success(["1", "2"])
  {
    IterFirstStep();
    IterSecondStep();
    assert [Ptr(1), Ptr(2)][0] == Ptr(1);
    assert Wrap32(1 + 1) == 2;
    assert ["1"] + ["2"] == ["1", "2"];
  }

  /** Excluding `[0]` from `[1, 2]` still writes both elements: the first
      is written under the path `[1]` and the second under `[2]`. */
  lemma ExcludedFirstElementStillWritten()
    ensures Write(IterHeap(), Ptr(0), Some([ExcludeFirst]), true) == Success("[1,2]")
  {
    IterProcessed();
  }

  lemma IterProcessed()
    ensures Process(IterHeap(), FirstExcluded, Ptr(0), [], "", 0) == Success("[1,2]")
  {
    var h, cfg := IterHeap(), FirstExcluded;
    IterBothWritten();
    assert h[0] == IterableObj([Ptr(1), Ptr(2)], "[1, 2]");
    assert [] + [0] == [0];
    var ms := IterMembers(h, cfg, Ptr(0), [] + [0], "", [Ptr(1), Ptr(2)], 0, 0);
    assert ms == Success(["1", "2"]);
    assert Process(h, cfg, Ptr(0), [], "", 0) == Success("[" + Join(",", ms.value) + "]");
    JoinTwo();
  }

  lemma JoinTwo()
    ensures "[" + Join(",", ["1", "2"]) + "]" == "[1,2]"
  {
    assert ["1", "2"][1..] == ["2"];
    assert Join(",", ["1", "2"]) == "1" + "," + "2";
  }

  lemma TrunkIterMembers()
    ensures JsonWriter.ElemMembers(IterHeap(), JsonWriter.Config(Filters(Some([ExcludeFirst]), None), false, true, false),
                                   Ptr(0), [0], "", [Ptr(1), Ptr(2)], 0)
         == Success([None, Some("2")])
  {
    var h, cfg := IterHeap(), JsonWriter.Config(Filters(Some([ExcludeFirst]), None), false, true, false);
    var vs := [Ptr(1), Ptr(2)];
    IndexPaths();
    assert [ExcludeFirst][0] == ExcludeFirst;
    assert JsonWriter.ElemMember(h, cfg, Ptr(0), [0], "", vs, 0) == Success(None);
    assert IntToString(2) == "2";
    assert JsonWriter.Value(h, cfg, Ptr(0), [0], ExpandIndex("", 1), Ptr(2)) == Success("2");
    assert JsonWriter.ElemMember(h, cfg, Ptr(0), [0], "", vs, 1) == Success(Some("2"));
    assert JsonWriter.ElemMembers(h, cfg, Ptr(0), [0], "", vs, 2) == Success([]);
    assert [Some("2")] + [] == [Some("2")];
    assert [None] + [Some("2")] == [None, Some("2")];
  }

  /** The current writer, given the same collection and pattern, leaves the
      first element out. */
  lemma TrunkDropsExcludedElement()
    ensures JsonWriter.Write(IterHeap(), Ptr(0), Filters(Some([ExcludeFirst]), None), false, true, false) == Success("[2]")
  {
    TrunkIterMembers();
    assert CommaFold([None, Some("2")], false) == "2" by {
      assert [None, Some("2")][1..] == [Some("2")];
      assert [Some("2")][1..] == [];
    }
    assert [] + [0] == [0];
    assert "[" + "2" + "]" == "[2]";
  }
}
