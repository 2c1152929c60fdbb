# jsonplugin core, modelled in Dafny

The Struts 2 JSON plugin is modelled here in two revisions of the same
package:
- The older revision lives under `src/`. Its members carry the `Legacy` prefix.
- The newer revision lives under `trunk/`.

The modelled parts are:
- **`JSONWriter`**: turns an object graph into JSON text.
  - Dispatches on the value's kind.
  - Writes beans through their readable properties.
  - Writes an object already on the stack of objects in progress as `null`.
  - Filters properties, elements and entries by their expression path (`a.b[2].c`) against exclude and include regular expressions.
  - Escapes strings.
- **`JSONPopulator`** and the populator copied into the newer `JSONInterceptor`: assign a parsed JSON object to a bean's setters, converting each value to the setter's declared type.
- **`JSONInterceptor`**:
  - Routes a request on its `content-type`.
  - Populates the root object.
  - Answers JSON-RPC calls: validates the `id`, the `method` and the `params`, finds the `@SMDMethod` method, converts the arguments and builds the `RPCResponse`.
- **`JSONResult`**:
  - Expands the include patterns level by level.
  - Applies the exclude list.
  - Describes the SMD methods.
  - Chooses the encoding.
- **`JSONUtil`**:
  - `asList`, `deserialize(Reader)` line joining, response wrapping and the content type.
  - `isGzipInRequest` and the JSONP callback.
  - The visit of a class's super-types, and `listSMDMethods`.
- **`RPCErrorCode`**.

## Model design
- **Object graph.** The object graph is a heap `map<Ref, Obj>`.
  - Beans carry property descriptors. A descriptor records whether the property is readable, whether it is declared on the class itself, its `@JSON` annotation, and what its getter returns or throws.
  - The stack of objects in progress is a `seq<Ref>`.
  - The writer terminates because the set of heap references not yet on the stack shrinks with every push.
- **Pattern matching.** A compiled regular expression is a `string -> bool` matcher (`Pattern.matcher(s).matches()`).
  - Include-pattern expansion works on the pattern source text, as the original does.
- **Classes and methods.** Reflection is replaced by a class table.
  - Each class records its super-class, interfaces, properties (name, setter, annotation) and methods (name, parameter types, `@SMDMethod` alias, parameter names).
- **Parsed JSON.** Parsed JSON is `JValue`.
  - Objects are `map<string, JValue>`.
  - Integers are unbounded `int`s and are passed on as Java `Long` values; the 64-bit range the parser keeps them in is not enforced (see "Left out").
- **Java integer types.** Narrowing to `byte`, `short`, `int` and `long` is written out as two's-complement wrap-around (`JavaModel.Narrow`).
- **Errors.** Java exceptions are `Failure` values of a `Result`.

## Behaviours worth noting
- **Excluded array index.** The newer writer drops an element whose index path is excluded (`trunk/src/main/java/com/googlecode/jsonplugin/JSONWriter.java:398-426`). The older writer writes every element anyway, under the next non-excluded index, and never ends when every index is excluded (`src/main/java/com/googlecode/jsonplugin/JSONWriter.java:325-331`, first finding below).
- **Number keys.** The older writer writes a number map key through `value()`, so without quotes (`src/main/java/com/googlecode/jsonplugin/JSONWriter.java:293`, `LegacyJsonWriter.NumberKeyUnquoted`). The newer writer always quotes the key's `toString()`.
- **Booleans.** A string becomes a boolean through `Boolean.valueOf` (`src/main/java/com/googlecode/jsonplugin/JSONPopulator.java:205-209`): any string other than `true` in any letter case gives `false`, and no error is raised.
- **Empty string to char.** `JSONPopulator` turns an empty string into character 0 (`src/main/java/com/googlecode/jsonplugin/JSONPopulator.java:211-220`). The populator inside the newer `JSONInterceptor` calls `charAt(0)` and throws instead.
- **Null map key.** The newer writer skips a `null` key while expression paths are built. Otherwise it fails with a null pointer when it reads the key's class (`trunk/src/main/java/com/googlecode/jsonplugin/JSONWriter.java:345-368`). The model calls this failure `NullKey`.
- **U+FFFF in strings.** The escaping loop of `string()` stops at the first U+FFFF, because `CharacterIterator.DONE` is that character (`trunk/src/main/java/com/googlecode/jsonplugin/JSONWriter.java:471`). Everything after it is silently dropped, so `"a\uFFFFb"` is written as `"a"` (`Escape.DoneTruncates`).

## Model

| member | source | states |
|---|---|---|
| Escape.ShiftedDigits | trunk/src/main/java/com/googlecode/jsonplugin/JSONWriter.java:522-527 | the `count` characters written for `n` are all hexadecimal digits |
| Escape.ShiftedDigitsValue | trunk/src/main/java/com/googlecode/jsonplugin/JSONWriter.java:520-527 | the four digits written for a code below 0x10000 read back as that code |
| Escape.Unicode | trunk/src/main/java/com/googlecode/jsonplugin/JSONWriter.java:517-528 | a `\uXXXX` escape is six characters, `\u` then four hex digits whose value is the character's code |
| Escape.EscapeString | trunk/src/main/java/com/googlecode/jsonplugin/JSONWriter.java:466-496 | the escaped text is enclosed in double quotes |
| Escape.UntilDone | trunk/src/main/java/com/googlecode/jsonplugin/JSONWriter.java:471 | the text the loop walks is the longest prefix without U+FFFF: a prefix, free of U+FFFF, and followed by U+FFFF unless it is the whole text |
| Escape.EscapeChar | trunk/src/main/java/com/googlecode/jsonplugin/JSONWriter.java:472-492 | a character is written as itself exactly when it is not a quote, backslash, slash or ISO control character; otherwise it is written as an escape starting with a backslash, and no escape contains a raw control character |
| Escape.EscapeBody | trunk/src/main/java/com/googlecode/jsonplugin/JSONWriter.java:471-493 | the escaped body holds no raw ISO control character and is at least as long as the walked text |
| Escape.UnescapeBody | trunk/src/main/java/com/googlecode/jsonplugin/JSONWriter.java:466-496 | the independent decoder of a JSON string body: a decoded text is never longer than its encoding |
| Escape.EscapeStopsAtDone | trunk/src/main/java/com/googlecode/jsonplugin/JSONWriter.java:471 | a text is written exactly as its part before the first U+FFFF |
| Escape.DoneTruncates | trunk/src/main/java/com/googlecode/jsonplugin/JSONWriter.java:471 | `"a\uFFFFb"` is written as `"a"` |
| Escape.UnescapeEscapeChar | trunk/src/main/java/com/googlecode/jsonplugin/JSONWriter.java:472-492 | reading back the escape written for any one character yields that character, whatever follows |
| Escape.UnescapeEscapeBody | trunk/src/main/java/com/googlecode/jsonplugin/JSONWriter.java:471-493 | reading back the escaped body of any text yields the text up to its first U+FFFF |
| Escape.UnescapeEscapeString | trunk/src/main/java/com/googlecode/jsonplugin/JSONWriter.java:466-496 | round trip: decoding the quoted escaped text yields the text up to its first U+FFFF, so the whole text when it holds none |
| Escape.EscapeStringInjective | trunk/src/main/java/com/googlecode/jsonplugin/JSONWriter.java:466-496 | two texts have the same escaped form iff they agree up to their first U+FFFF; texts without U+FFFF have the same form iff they are equal |
| PathFilter.AnyMatches | trunk/src/main/java/com/googlecode/jsonplugin/JSONWriter.java:289-295 | true exactly when some pattern of the list matches the expression |
| PathFilter.ShouldExclude | trunk/src/main/java/com/googlecode/jsonplugin/JSONWriter.java:287-314 | a matching exclude pattern always excludes; with no include list and no exclude pattern nothing is excluded |
| PathFilter.ShouldExcludeMeaning | trunk/src/main/java/com/googlecode/jsonplugin/JSONWriter.java:287-311 | an expression is excluded iff some exclude pattern matches it, or an include list is set and none of its patterns matches |
| PathFilter.ExcludeWins | trunk/src/main/java/com/googlecode/jsonplugin/JSONWriter.java:288-296 | a matching exclude pattern excludes the expression whatever the include list says |
| PathFilter.EmptyIncludeExcludesAll | trunk/src/main/java/com/googlecode/jsonplugin/JSONWriter.java:298-308 | an empty include list excludes every expression |
| PathFilter.LegacyShouldExclude | src/main/java/com/googlecode/jsonplugin/JSONWriter.java:241-250 | the older rule: excluded iff some exclude pattern matches |
| PathFilter.ExpandName | trunk/src/main/java/com/googlecode/jsonplugin/JSONWriter.java:275-279 | a property's path is its name at the root and `parent.name` below it, with both parts recoverable |
| PathFilter.ExpandIndexShape | trunk/src/main/java/com/googlecode/jsonplugin/JSONWriter.java:271-273 | an element's path is the parent path, `[`, the decimal index, `]` |
| PathFilter.ExpandIndex | trunk/src/main/java/com/googlecode/jsonplugin/JSONWriter.java:271-273 | an element's path starts with the parent path and `[` and ends with `]` |
| PathFilter.ExpandIndexInjective | trunk/src/main/java/com/googlecode/jsonplugin/JSONWriter.java:271-273 | distinct indexes under one parent get distinct paths |
| ObjectGraph.DeclaredHere | trunk/src/main/java/com/googlecode/jsonplugin/JSONWriter.java:176-180 | keeps exactly the properties declared on the class itself, and nothing else |
| ObjectGraph.CommaFoldJoin | trunk/src/main/java/com/googlecode/jsonplugin/JSONWriter.java:316-329 | the `hasData` comma loop writes the emitted members joined by commas, with a leading comma when data came before |
| Visited.PushShrinks | trunk/src/main/java/com/googlecode/jsonplugin/JSONWriter.java:134-164 | pushing an object not yet in progress strictly shrinks the set of objects not in progress, so writing (and the super-type walk, which pushes the same way) terminates |
| JsonWriter.Write | trunk/src/main/java/com/googlecode/jsonplugin/JSONWriter.java:86-100 | the text written for any root has the shape of one JSON value, and a null root is written as `null` |
| JsonWriter.Value | trunk/src/main/java/com/googlecode/jsonplugin/JSONWriter.java:103-131 | every written value has the shape of one JSON value, and `null` is written as `null` |
| JsonWriter.Process | trunk/src/main/java/com/googlecode/jsonplugin/JSONWriter.java:133-168 | an object is written as one JSON value, and strings, classes, booleans, numbers and characters are always written |
| JsonWriter.Bean | trunk/src/main/java/com/googlecode/jsonplugin/JSONWriter.java:170-246 | a bean is written as a text enclosed in braces |
| JsonWriter.PropMember | trunk/src/main/java/com/googlecode/jsonplugin/JSONWriter.java:185-232 | a written property is readable, not `class` or another reserved name, and appears as its quoted written name, `:`, then one JSON value |
| JsonWriter.ElemMember | trunk/src/main/java/com/googlecode/jsonplugin/JSONWriter.java:402-419 | an element is left out iff paths are built and its index path is excluded; a written element is one JSON value |
| JsonWriter.EntryMember | trunk/src/main/java/com/googlecode/jsonplugin/JSONWriter.java:340-376 | a written entry has a non-null key and appears as the key's string form, escaped and quoted, `:`, then one JSON value |
| JsonWriter.PropMembers | trunk/src/main/java/com/googlecode/jsonplugin/JSONWriter.java:185-231 | one outcome per property, the k-th being what that property alone writes |
| JsonWriter.ElemMembers | trunk/src/main/java/com/googlecode/jsonplugin/JSONWriter.java:428-454 | one outcome per element, the k-th being what element k alone writes under index k |
| JsonWriter.EntryMembers | trunk/src/main/java/com/googlecode/jsonplugin/JSONWriter.java:334-377 | one outcome per map entry, the k-th being what entry k alone writes |
| JsonWriter.PropMemberWritten | trunk/src/main/java/com/googlecode/jsonplugin/JSONWriter.java:203-229 | a property is written iff it is readable, not `@JSON(serialize=false)`, not a reserved name, not filtered out, its getter returns, and it is not a suppressed null; then it is written as `"name":value` |
| JsonWriter.ThrowingGetterFails | trunk/src/main/java/com/googlecode/jsonplugin/JSONWriter.java:212-224 | a throwing getter fails the whole write exactly when the property passes the earlier tests |
| JsonWriter.ElementWrittenIffIncluded | trunk/src/main/java/com/googlecode/jsonplugin/JSONWriter.java:398-454 | with filtering on, element k is dropped iff its path `[k]` is excluded, and otherwise written as its own value |
| JsonWriter.ElemIncluded | trunk/src/main/java/com/googlecode/jsonplugin/JSONWriter.java:434-447 | the same statement for a single element's step |
| JsonWriter.EntryWritten | trunk/src/main/java/com/googlecode/jsonplugin/JSONWriter.java:352-370 | a written entry starts with its key's string form, escaped and quoted, then `:`; the key text reads back up to its first U+FFFF, so exactly when it holds none |
| JsonWriter.EntryIncluded | trunk/src/main/java/com/googlecode/jsonplugin/JSONWriter.java:345-368 | with paths built, an entry with a non-null key is left out iff its path `parent.key` is excluded, and otherwise is the escaped, quoted key text, `:`, and the value written under that path |
| JsonWriter.EntryWrittenIffIncluded | trunk/src/main/java/com/googlecode/jsonplugin/JSONWriter.java:334-380 | in a written map with paths built, entry k with a non-null key is left out iff `parent.key` is excluded, and otherwise is written with its value under that path |
| JsonWriter.MapBody | trunk/src/main/java/com/googlecode/jsonplugin/JSONWriter.java:334-380 | a map is written as `{`, its written entries joined by commas, `}` |
| JsonWriter.ArrayBody | trunk/src/main/java/com/googlecode/jsonplugin/JSONWriter.java:398-457 | an array or a collection is written as `[`, its written elements joined by commas, `]` |
| JsonWriter.BeanBody | trunk/src/main/java/com/googlecode/jsonplugin/JSONWriter.java:170-246 | a bean is written as `{`, its written property members joined by commas, then for an enum written as a bean its `_name` member, `}` |
| JsonWriter.NullKeyEntry | trunk/src/main/java/com/googlecode/jsonplugin/JSONWriter.java:345-368 | a `null` key is skipped when paths are built and fails the write otherwise |
| JsonWriter.CycleWrittenAsNull | trunk/src/main/java/com/googlecode/jsonplugin/JSONWriter.java:103-128 | a non-string object already in progress is written as `null` |
| JsonWriter.RootOwnPropertiesOnly | trunk/src/main/java/com/googlecode/jsonplugin/JSONWriter.java:176-180 | with `ignoreHierarchy` the root bean writes exactly its own declared properties |
| JsonWriter.EnumWritten | trunk/src/main/java/com/googlecode/jsonplugin/JSONWriter.java:248-254 | an enum is its quoted name, or, as a bean, ends with the `_name` member |
| JsonWriter.BeanTail | trunk/src/main/java/com/googlecode/jsonplugin/JSONWriter.java:233-242 | an enum written as a bean closes with `"_name":"NAME"}` |
| JsonWriter.StringWritten | trunk/src/main/java/com/googlecode/jsonplugin/JSONWriter.java:142-143 | a string object, even one in progress, is written as a quoted text that reads back as the string up to its first U+FFFF, so as the whole string when it holds none |
| JsonWriter.CycleInner | trunk/src/main/java/com/googlecode/jsonplugin/JSONWriter.java:110-122 | in the A-to-B-to-A graph, B writes its back reference to A as `null` |
| JsonWriter.TwoBeanCycle | trunk/src/main/java/com/googlecode/jsonplugin/JSONWriter.java:103-128 | the A-to-B-to-A graph is written as `{"b":{"a":null}}` |
| LegacyJsonWriter.Wrap32 | src/main/java/com/googlecode/jsonplugin/JSONWriter.java:325 | the index counter stays a 32-bit `int` and wraps around |
| LegacyJsonWriter.Write | src/main/java/com/googlecode/jsonplugin/JSONWriter.java:76-89 | the text written for any root has the shape of one JSON value, and a null root is written as `null` |
| LegacyJsonWriter.Value | src/main/java/com/googlecode/jsonplugin/JSONWriter.java:91-119 | every written value has the shape of one JSON value, and `null` is written as `null` |
| LegacyJsonWriter.Process | src/main/java/com/googlecode/jsonplugin/JSONWriter.java:121-152 | an object is written as one JSON value, and strings, classes, booleans, numbers and characters are always written |
| LegacyJsonWriter.Bean | src/main/java/com/googlecode/jsonplugin/JSONWriter.java:154-215 | a bean is written as a text enclosed in braces |
| LegacyJsonWriter.PropMembers | src/main/java/com/googlecode/jsonplugin/JSONWriter.java:169-206 | outcome k is property k's own outcome |
| LegacyJsonWriter.ElemMembers | src/main/java/com/googlecode/jsonplugin/JSONWriter.java:350-376 | outcome k is element k's own outcome, under index k |
| LegacyJsonWriter.EntryMembers | src/main/java/com/googlecode/jsonplugin/JSONWriter.java:265-300 | outcome k is entry k's own outcome |
| LegacyJsonWriter.LegacyElemIncluded | src/main/java/com/googlecode/jsonplugin/JSONWriter.java:350-376 | the loop over a Java array skips correctly: with paths built, element k is left out iff `parent[k]` is excluded, and otherwise is its value written under that path |
| LegacyJsonWriter.ArrayElementWrittenIffIncluded | src/main/java/com/googlecode/jsonplugin/JSONWriter.java:350-376 | in a written Java array, element k is left out iff `parent[k]` is excluded, and the later elements keep their indexes |
| LegacyJsonWriter.MapBody | src/main/java/com/googlecode/jsonplugin/JSONWriter.java:265-300 | a map is written as `{`, its written entries joined by commas, `}` |
| LegacyJsonWriter.ArrayBody | src/main/java/com/googlecode/jsonplugin/JSONWriter.java:350-376 | a Java array is written as `[`, its written elements joined by commas, `]` |
| LegacyJsonWriter.BeanBody | src/main/java/com/googlecode/jsonplugin/JSONWriter.java:154-215 | a bean, locale or enum is written as `{`, its written property members joined by commas, `}` |
| LegacyJsonWriter.FirstKept | src/main/java/com/googlecode/jsonplugin/JSONWriter.java:325-331 | a found index is a 32-bit value the skip test does not reject |
| LegacyJsonWriter.FirstKeptFirst | src/main/java/com/googlecode/jsonplugin/JSONWriter.java:325-331 | a found index is the first the counter reaches that is not skipped: every counter value tried before it was skipped |
| LegacyJsonWriter.NextIncluded | src/main/java/com/googlecode/jsonplugin/JSONWriter.java:325-331 | a found index's path `[i]` is not excluded |
| LegacyJsonWriter.NextIncludedFirst | src/main/java/com/googlecode/jsonplugin/JSONWriter.java:325-331 | the found index is the first non-excluded one from the counter: every index tried before it has an excluded path |
| LegacyJsonWriter.IterMembers | src/main/java/com/googlecode/jsonplugin/JSONWriter.java:321-345 | the older iterator loop writes one text per element |
| LegacyJsonWriter.NextIncludedNone | src/main/java/com/googlecode/jsonplugin/JSONWriter.java:325-331 | the index search finds nothing iff every index it visits is excluded |
| LegacyJsonWriter.FirstKeptNone | src/main/java/com/googlecode/jsonplugin/JSONWriter.java:325-331 | the generic search finds nothing iff it skips every counter value it visits |
| LegacyJsonWriter.NoIncludedIndex | src/main/java/com/googlecode/jsonplugin/JSONWriter.java:325-331 | a search over all 2^32 counter values finds nothing iff every 32-bit index is excluded |
| LegacyJsonWriter.IterationDiverges | src/main/java/com/googlecode/jsonplugin/JSONWriter.java:321-345 | when every index is excluded, the loop over a non-empty collection never ends |
| LegacyJsonWriter.IterElementWritten | src/main/java/com/googlecode/jsonplugin/JSONWriter.java:327-338 | each element is written, rather than dropped, under the index the search finds, and every counter value from the current one up to that index has an excluded path |
| LegacyJsonWriter.IterMembersPlain | src/main/java/com/googlecode/jsonplugin/JSONWriter.java:334-338 | without patterns, element n's text is its value written at the parent's path |
| LegacyJsonWriter.NullKeyEntry | src/main/java/com/googlecode/jsonplugin/JSONWriter.java:275-293 | a `null` key is skipped when paths are built, and is written as `null:` otherwise |
| LegacyJsonWriter.NumberKeyUnquoted | src/main/java/com/googlecode/jsonplugin/JSONWriter.java:293 | a number key is written as its digits without quotes |
| LegacyJsonWriter.PropMemberWritten | src/main/java/com/googlecode/jsonplugin/JSONWriter.java:174-201 | a property is written iff it is readable, not `@JSON(serialize=false)`, not `class`, and not excluded; a null value is still written |
| LegacyJsonWriter.ExcludedFirstElementStillWritten | src/main/java/com/googlecode/jsonplugin/JSONWriter.java:321-345 | `[1,2]` with `[0]` excluded is still written as `[1,2]` |
| LegacyJsonWriter.TrunkDropsExcludedElement | trunk/src/main/java/com/googlecode/jsonplugin/JSONWriter.java:398-423 | the newer writer writes the same list as `[2]` |
| JavaModel.Narrow | src/main/java/com/googlecode/jsonplugin/JSONPopulator.java:163-181 | the narrowed value is in the target type's range, equals the input when it already fits, and differs from it by a multiple of 2^bits |
| JavaModel.ByteNarrowing | trunk/src/test/java/com/googlecode/jsonplugin/JSONPopulatorTest.java:12-28 | 3 narrows to byte 3, and 300 to 44 |
| Populator.Raw | src/main/java/com/googlecode/jsonplugin/JSONPopulator.java:223 | the value is kept as parsed; only JSON `null` becomes Java `null` |
| Populator.Convert | src/main/java/com/googlecode/jsonplugin/JSONPopulator.java:86-104 | a converted bean has the target class; a converted array has the setter's component type and one element per list item |
| Populator.ConvertToArray | src/main/java/com/googlecode/jsonplugin/JSONPopulator.java:116-154 | a value that is not a list is rejected as incompatible with the accessor; otherwise the array has the setter's component type and one element per item |
| Populator.ConvertElem | src/main/java/com/googlecode/jsonplugin/JSONPopulator.java:127-148 | a converted element is assignable to the component type, unless that is `Object` |
| Populator.ConvertPrimitive | src/main/java/com/googlecode/jsonplugin/JSONPopulator.java:161-226 | conversion fails only for an enum target given something other than one of its constant names, or, in the interceptor's populator, for an empty string into `char`; `null` stays `null` |
| Populator.PropValue | src/main/java/com/googlecode/jsonplugin/JSONPopulator.java:62-80 | a property is set only when the object has a member of its name and a public one-argument setter, and then with a value assignable to the setter's parameter |
| Populator.NumberTo | src/main/java/com/googlecode/jsonplugin/JSONPopulator.java:163-189 | a number converts to a value of exactly the target kind, in range and congruent to the input |
| Populator.ConvertElems | src/main/java/com/googlecode/jsonplugin/JSONPopulator.java:127-148 | one converted value per list item |
| Populator.Populate | src/main/java/com/googlecode/jsonplugin/JSONPopulator.java:58-82 | one outcome per declared property of the class |
| Populator.PopulateProps | src/main/java/com/googlecode/jsonplugin/JSONPopulator.java:58-82 | one outcome per remaining property |
| Populator.PropValueSet | src/main/java/com/googlecode/jsonplugin/JSONPopulator.java:62-80 | a property is assigned iff its name is a key, it has a setter, and that setter is public, takes one parameter and is not `@JSON(deserialize=false)`; the value assigned is the converted one and fits the parameter type |
| Populator.NoSetterFails | src/main/java/com/googlecode/jsonplugin/JSONPopulator.java:64-66 | a key naming a property without a setter fails, since the annotation is read from the missing setter |
| Populator.PopulatePropsAt | src/main/java/com/googlecode/jsonplugin/JSONPopulator.java:58-82 | the k-th outcome is that property's own outcome |
| Populator.PopulatedPropertySet | src/main/java/com/googlecode/jsonplugin/JSONPopulator.java:58-82 | property k of the class is set iff its name is a key and it has a usable setter |
| Populator.ExtraMemberIgnored | src/main/java/com/googlecode/jsonplugin/JSONPopulator.java:62 | adding a key that names no property changes nothing |
| Populator.ConvertElemsAt | src/main/java/com/googlecode/jsonplugin/JSONPopulator.java:127-148 | the k-th array element is item k's conversion |
| Populator.ArrayConverted | src/main/java/com/googlecode/jsonplugin/JSONPopulator.java:116-154 | an array comes only from a list and an array-typed parameter; it has the declared component type and the list's length, and `Object[]` keeps the items as they are |
| Populator.ArrayNeedsList | src/main/java/com/googlecode/jsonplugin/JSONPopulator.java:122 | a non-list value for an array parameter is "Incompatible types" |
| Populator.NumberNarrowed | src/main/java/com/googlecode/jsonplugin/JSONPopulator.java:163-181 | a number converts to any integral target by narrowing, and the result is assignable |
| Populator.ByteExamples | src/main/java/com/googlecode/jsonplugin/JSONPopulator.java:170-173 | 3 gives byte 3, and 300 gives byte 44 |
| Populator.StringToBoolean | src/main/java/com/googlecode/jsonplugin/JSONPopulator.java:205-210 | a string gives `true` iff it equals `true` ignoring case |
| Populator.StringToChar | src/main/java/com/googlecode/jsonplugin/JSONPopulator.java:211-220 | the first character; for the empty string, character 0 in `JSONPopulator` and an exception in the interceptor's copy |
| Populator.StringToEnum | src/main/java/com/googlecode/jsonplugin/JSONPopulator.java:202-204 | a string converts to an enum iff it is one of the constants, and then to that constant |
| Populator.NumberIntoStringFails | src/main/java/com/googlecode/jsonplugin/JSONPopulator.java:77-78 | a number passed to a `String` setter is an argument mismatch |
| Populator.ListAndMapPassThrough | src/main/java/com/googlecode/jsonplugin/JSONPopulator.java:92-93 | `List` and `Map` targets receive the parsed value unchanged |
| Populator.NestedBean | src/main/java/com/googlecode/jsonplugin/JSONPopulator.java:96-103 | a bean target needs an object, which populates a fresh instance; anything else is "Incompatible types" |
| Populator.WrapperTargets | trunk/src/main/java/com/googlecode/jsonplugin/JSONInterceptor.java:264-277 | the interceptor's copy does not treat wrapper classes as primitive, so it fails on them; `JSONPopulator` narrows numbers into them |
| Rpc.FromMessage | trunk/src/main/java/com/googlecode/jsonplugin/rpc/RPCErrorCode.java:4-9 | a constant found from a message carries that message |
| Rpc.MessageIdentifies | trunk/src/main/java/com/googlecode/jsonplugin/rpc/RPCErrorCode.java:4-25 | every constant is found again from its message |
| Rpc.CodesShared | trunk/src/main/java/com/googlecode/jsonplugin/rpc/RPCErrorCode.java:4-5 | `MISSING_METHOD` and `MISSING_ID` share code 100, and no other two constants share a code |
| Rpc.CodeTable | trunk/src/main/java/com/googlecode/jsonplugin/rpc/RPCErrorCode.java:6-9 | the other codes are 0, 101 and 102 |
| Rpc.FirstMatch | trunk/src/main/java/com/googlecode/jsonplugin/JSONInterceptor.java:205-219 | the first annotated method whose arity and name (or alias) match; none iff no method matches |
| Rpc.AliasHidesName | trunk/src/main/java/com/googlecode/jsonplugin/JSONInterceptor.java:210-213 | a method with an alias is found by its alias and not by its Java name |
| JsonInterceptor.Get | trunk/src/main/java/com/googlecode/jsonplugin/JSONInterceptor.java:132 | a missing key reads as `null` |
| JsonInterceptor.GetMethod | trunk/src/main/java/com/googlecode/jsonplugin/JSONInterceptor.java:205-219 | the found method is one of the class's and matches; none iff no method matches |
| JsonInterceptor.ConvertArgs | trunk/src/main/java/com/googlecode/jsonplugin/JSONInterceptor.java:178-184 | as written: one value per argument, argument k converted for parameter k with the whole method as the accessor |
| JsonInterceptor.ConvertArgsCorrected | trunk/src/main/java/com/googlecode/jsonplugin/JSONInterceptor.java:178-184 | the conversion that uses each argument's own parameter gives one value per argument |
| JsonInterceptor.ArrayArgumentNotFirst | trunk/src/main/java/com/googlecode/jsonplugin/JSONInterceptor.java:285 | as written, `f(int, String[])` called with `[1, ["x"]]` fails with a null pointer |
| JsonInterceptor.ArrayArgumentConverted | trunk/src/main/java/com/googlecode/jsonplugin/JSONInterceptor.java:178-184 | the corrected conversion turns the same call into `1` and `String[]{"x"}` |
| JsonInterceptor.ConvertArgsCorrectedAt | trunk/src/main/java/com/googlecode/jsonplugin/JSONInterceptor.java:178-184 | argument k is converted against parameter k |
| JsonInterceptor.ArrayArgumentsTyped | trunk/src/main/java/com/googlecode/jsonplugin/JSONInterceptor.java:178-184 | each array-typed parameter receives an array of its own component type, as long as its list |
| JsonInterceptor.ElemsAccessorName | trunk/src/main/java/com/googlecode/jsonplugin/JSONInterceptor.java:292-319 | element conversion depends on the accessor's name only, not on its parameters |
| JsonInterceptor.ConvertArgsAgree | trunk/src/main/java/com/googlecode/jsonplugin/JSONInterceptor.java:178-184 | when no parameter after the first is an array, the two conversions agree |
| JsonInterceptor.IdCheckedFirst | trunk/src/main/java/com/googlecode/jsonplugin/JSONInterceptor.java:132-136 | a missing or null `id` is answered with a `METHOD_NOT_FOUND` error and no id |
| JsonInterceptor.ValidationOrder | trunk/src/main/java/com/googlecode/jsonplugin/JSONInterceptor.java:138-159 | checked in order: `params` not a list throws, a missing `method` is `MISSING_METHOD`, and no matching method is `METHOD_NOT_FOUND` |
| JsonInterceptor.NoParametersMismatch | trunk/src/main/java/com/googlecode/jsonplugin/JSONInterceptor.java:162-175 | `PARAMETERS_MISMATCH` is never reported, because the lookup already matched the arity |
| JsonInterceptor.CallAnswered | trunk/src/main/java/com/googlecode/jsonplugin/JSONInterceptor.java:161-191 | for either conversion loop, a response has a result iff it has no error; then it carries the id and what the found method returned for the arguments that loop converted |
| JsonInterceptor.CallWithAgree | trunk/src/main/java/com/googlecode/jsonplugin/JSONInterceptor.java:161-191 | when no parameter after the first is an array, calling a method with the loop as written and with the corrected loop gives the same outcome |
| JsonInterceptor.InvokeAgree | trunk/src/main/java/com/googlecode/jsonplugin/JSONInterceptor.java:125-192 | on a class none of whose methods takes an array after its first parameter, the program's `invoke` answers as the corrected one |
| JsonInterceptor.ArrayCallFails | trunk/src/main/java/com/googlecode/jsonplugin/JSONInterceptor.java:182 | the program's `invoke` of `f(1, ["x"])` on `f(int, String[])` throws the null pointer of the array conversion |
| JsonInterceptor.ConvertAll | trunk/src/main/java/com/googlecode/jsonplugin/JSONInterceptor.java:161-184 | one converted value per request parameter, for either loop |
| JsonInterceptor.CallWith | trunk/src/main/java/com/googlecode/jsonplugin/JSONInterceptor.java:177-188 | a call succeeds only when every argument converted, `Method.invoke` accepts each for its parameter, and the method returned that value for them |
| JsonInterceptor.Invoke | trunk/src/main/java/com/googlecode/jsonplugin/JSONInterceptor.java:125-192 | `invoke` throws only after a non-null id is read; a response has no id iff the request's id is missing or null, and has a result iff it has no error |
| JsonInterceptor.PopulateRoot | trunk/src/main/java/com/googlecode/jsonplugin/JSONInterceptor.java:71-83 | the action is invoked only after an object body populated the root, with the values population computed; no response is written |
| JsonInterceptor.Dispatch | trunk/src/main/java/com/googlecode/jsonplugin/JSONInterceptor.java:86-108 | a non-object body invokes the action without population; a response is written only for an object body and is what the program's `invoke` answers |
| JsonInterceptor.Intercept | trunk/src/main/java/com/googlecode/jsonplugin/JSONInterceptor.java:58-122 | a response is written only for a JSON-RPC content type with SMD enabled, population only for the JSON content type, and any other content type just invokes the action |
| JsonInterceptor.RouteOf | trunk/src/main/java/com/googlecode/jsonplugin/JSONInterceptor.java:71-85 | JSON iff the whole header equals `application/json` ignoring case; likewise for `application/json-rpc` |
| JsonInterceptor.OtherContentProceeds | trunk/src/main/java/com/googlecode/jsonplugin/JSONInterceptor.java:113-121 | no header, or a JSON type with a charset parameter, just invokes the action |
| JsonInterceptor.UpperCaseRecognised | trunk/src/main/java/com/googlecode/jsonplugin/JSONInterceptor.java:71 | `APPLICATION/JSON` is routed as JSON |
| JsonInterceptor.NonObjectBodies | trunk/src/main/java/com/googlecode/jsonplugin/JSONInterceptor.java:75-112 | a non-object body throws for population; under JSON-RPC its error response is discarded and the action runs; with SMD disabled a JSON-RPC request throws |
| JsonInterceptor.RpcAnsweredWithoutAction | trunk/src/main/java/com/googlecode/jsonplugin/JSONInterceptor.java:91-100 | an answered call writes its response and does not invoke the action |
| LegacyJsonInterceptor.MediaType | src/main/java/com/googlecode/jsonplugin/JSONInterceptor.java:63-67 | the header cut at its first `;`: a prefix free of `;` |
| LegacyJsonInterceptor.MediaTypeDropsParameters | src/main/java/com/googlecode/jsonplugin/JSONInterceptor.java:63-67 | `type;params` gives `type` |
| LegacyJsonInterceptor.LegacyRoute | src/main/java/com/googlecode/jsonplugin/JSONInterceptor.java:63-99 | routes on the media type, ignoring case, and proceeds without a header |
| LegacyJsonInterceptor.RouteIgnoresParameters | src/main/java/com/googlecode/jsonplugin/JSONInterceptor.java:63-67 | parameters after `;` never change the route |
| LegacyJsonInterceptor.CharsetAccepted | src/main/java/com/googlecode/jsonplugin/JSONInterceptor.java:63-81 | `application/json; charset=UTF-8` is routed as JSON, unlike in the newer revision |
| LegacyJsonInterceptor.GetMethod | src/main/java/com/googlecode/jsonplugin/JSONInterceptor.java:240-249 | searches the methods `listSMDMethods` lists; none iff no listed method matches |
| LegacyJsonInterceptor.OwnMethodFound | src/main/java/com/googlecode/jsonplugin/JSONInterceptor.java:240-249 | a matching annotated method of the class itself is always found |
| LegacyJsonInterceptor.ConvertArgs | src/main/java/com/googlecode/jsonplugin/JSONInterceptor.java:218-229 | each argument is converted against its own parameter type |
| LegacyJsonInterceptor.CallWith | src/main/java/com/googlecode/jsonplugin/JSONInterceptor.java:218-233 | a call succeeds only when every argument converted, `Method.invoke` accepts each for its parameter, and the method returned that value for them |
| LegacyJsonInterceptor.Invoke | src/main/java/com/googlecode/jsonplugin/JSONInterceptor.java:161-237 | `invoke` throws only after a non-null id is read; a response has no id iff the request's id is missing or null, and has a result iff it has no error |
| LegacyJsonInterceptor.PopulateRoot | src/main/java/com/googlecode/jsonplugin/JSONInterceptor.java:81-97 | the action is invoked only after an object body populated the root through `JSONPopulator`, with the values population computed; no response is written |
| LegacyJsonInterceptor.Intercept | src/main/java/com/googlecode/jsonplugin/JSONInterceptor.java:59-159 | a root expression that finds nothing throws; a response is written only for the JSON-RPC media type, and any other media type just invokes the action |
| LegacyJsonInterceptor.InvokeNamed | src/main/java/com/googlecode/jsonplugin/JSONInterceptor.java:192-236 | the response keeps the id and has a result iff no error, and the only error is `METHOD_NOT_FOUND` |
| LegacyJsonInterceptor.FailureHasId | src/main/java/com/googlecode/jsonplugin/JSONInterceptor.java:168-175 | an invocation can only fail once an `id` was given |
| LegacyJsonInterceptor.ResultOrError | src/main/java/com/googlecode/jsonplugin/JSONInterceptor.java:161-237 | a response has a result iff it has no error |
| LegacyJsonInterceptor.ResponseIdMissing | src/main/java/com/googlecode/jsonplugin/JSONInterceptor.java:168-175 | the response has no id iff the request's `id` is missing or null |
| LegacyJsonInterceptor.ResponseIdKept | src/main/java/com/googlecode/jsonplugin/JSONInterceptor.java:175 | otherwise the response carries the request's id |
| LegacyJsonInterceptor.LegacyNoParametersMismatch | src/main/java/com/googlecode/jsonplugin/JSONInterceptor.java:201-215 | `PARAMETERS_MISMATCH` is never reported |
| LegacyJsonInterceptor.Answer | src/main/java/com/googlecode/jsonplugin/JSONInterceptor.java:105-124 | a body that is not an object is answered with `INVALID_PROCEDURE_CALL` |
| LegacyJsonInterceptor.InvalidRootFirst | src/main/java/com/googlecode/jsonplugin/JSONInterceptor.java:69-79 | a root expression that finds nothing fails before the request is looked at |
| LegacyJsonInterceptor.RpcAlwaysAnswered | src/main/java/com/googlecode/jsonplugin/JSONInterceptor.java:98-148 | every parsed JSON-RPC request gets a response: `SMD_DISABLED`, `INVALID_PROCEDURE_CALL`, the call's own response, or `EXCEPTION` for a failure |
| JsonUtil.NonEmptyTrimmed | trunk/src/main/java/com/googlecode/jsonplugin/JSONUtil.java:216-221 | keeps only non-empty items without surrounding blanks |
| JsonUtil.NonEmptyTrimmedPieces | trunk/src/main/java/com/googlecode/jsonplugin/JSONUtil.java:216-221 | the result is the trimmed non-empty pieces in their order: it distributes over concatenation, and one piece gives its trimmed text unless that is empty |
| JsonUtil.AsList | trunk/src/main/java/com/googlecode/jsonplugin/JSONUtil.java:211-223 | none iff the text is missing or blank |
| JsonUtil.AsListItems | trunk/src/main/java/com/googlecode/jsonplugin/JSONUtil.java:211-223 | every listed item is non-empty, trimmed and free of commas |
| JsonUtil.JavaSplitJoin | trunk/src/main/java/com/googlecode/jsonplugin/JSONUtil.java:215 | `split(",")` undoes joining non-empty comma-free items |
| JsonUtil.AsListJoin | trunk/src/main/java/com/googlecode/jsonplugin/JSONUtil.java:211-223 | round trip: the list of a comma-joined list of trimmed items is that list |
| JsonUtil.LineEnd | trunk/src/main/java/com/googlecode/jsonplugin/JSONUtil.java:149 | the end of the current line: the first terminator from the position |
| JsonUtil.BreakEnd | trunk/src/main/java/com/googlecode/jsonplugin/JSONUtil.java:149 | `readLine` consumes exactly one line break: two characters iff they are `\r\n`, otherwise the one terminator |
| JsonUtil.ReadLines | trunk/src/main/java/com/googlecode/jsonplugin/JSONUtil.java:142-157 | no more lines than characters, and a non-empty text gives a first line that is a prefix of it |
| JsonUtil.ReadLinesJoined | trunk/src/main/java/com/googlecode/jsonplugin/JSONUtil.java:142-157 | joining the lines `readLine` returns gives the text with every terminator removed |
| JsonUtil.ReadLinesNoTerminator | trunk/src/main/java/com/googlecode/jsonplugin/JSONUtil.java:149 | no line returned contains a terminator |
| JsonUtil.ResponseWrapped | trunk/src/main/java/com/googlecode/jsonplugin/JSONUtil.java:162-168 | comment wrapping encloses the JSON (or `""` for none) in `/* ` and ` */` |
| JsonUtil.ResponseText | trunk/src/main/java/com/googlecode/jsonplugin/JSONUtil.java:162-168 | a wrapped body is enclosed in `/* ` and ` */`; nothing to write and no wrapping gives the empty body |
| JsonUtil.ContentType | trunk/src/main/java/com/googlecode/jsonplugin/JSONUtil.java:173-175 | the header is a JSON media type ending with `;charset=` and the encoding |
| JsonUtil.ContentTypeParts | trunk/src/main/java/com/googlecode/jsonplugin/JSONUtil.java:173-175 | `application/json-rpc` iff SMD, and the header ends with the charset |
| JsonUtil.IsGzipInRequest | trunk/src/main/java/com/googlecode/jsonplugin/JSONUtil.java:342-345 | true iff the `Accept-Encoding` header exists and contains `gzip` |
| JsonUtil.CallbackName | trunk/src/main/java/com/googlecode/jsonplugin/JSONResult.java:316-324 | a callback name is never empty |
| JsonUtil.AddCallback | trunk/src/main/java/com/googlecode/jsonplugin/JSONResult.java:316-324 | without a callback the JSON is unchanged; with one it is `name(json)` |
| JsonUtil.CallbackEnclosesJson | trunk/src/main/java/com/googlecode/jsonplugin/JSONResult.java:316-324 | the JSON is recovered between the callback's parentheses |
| JsonUtil.NoCallbackWithoutParameter | src/main/java/com/googlecode/jsonplugin/JSONInterceptor.java:271-279 | a missing or empty request parameter adds no callback |
| JsonUtil.VisitUnique | trunk/src/main/java/com/googlecode/jsonplugin/JSONUtil.java:314-340 | the visited list only grows, ends up holding the class, and holds only known classes |
| JsonUtil.VisitIfaces | trunk/src/main/java/com/googlecode/jsonplugin/JSONUtil.java:322-327 | the interface loop only grows the visited list |
| JsonUtil.VisitUniqueDistinct | trunk/src/main/java/com/googlecode/jsonplugin/JSONUtil.java:318-319 | an unvisited class is appended first, and no class is visited twice |
| JsonUtil.VisitIfacesDistinct | trunk/src/main/java/com/googlecode/jsonplugin/JSONUtil.java:322-327 | the interface loop visits no class twice |
| JsonUtil.VisitUniqueOutcome | trunk/src/main/java/com/googlecode/jsonplugin/JSONUtil.java:320-339 | the visit succeeds iff the visitor accepted every class it was shown |
| JsonUtil.VisitIfacesOutcome | trunk/src/main/java/com/googlecode/jsonplugin/JSONUtil.java:322-327 | the same for the interface loop |
| JsonUtil.VisitUniqueReaches | trunk/src/main/java/com/googlecode/jsonplugin/JSONUtil.java:322-336 | a successful visit of a new class reaches all its interfaces and its super-class (other than `Object`) |
| JsonUtil.VisitIfacesReaches | trunk/src/main/java/com/googlecode/jsonplugin/JSONUtil.java:322-327 | a successful interface loop visits every remaining interface |
| JsonUtil.VisitInterfaces | trunk/src/main/java/com/googlecode/jsonplugin/JSONUtil.java:298-301 | the class itself comes first, nothing repeats, and success means the visitor accepted everything |
| JsonUtil.AcceptingVisitorCompletes | trunk/src/main/java/com/googlecode/jsonplugin/JSONUtil.java:243-255 | a visitor that always accepts completes the visit |
| JsonUtil.SupertypeOrder | trunk/src/main/java/com/googlecode/jsonplugin/JSONUtil.java:243-255 | the order in which `listSMDMethods` meets super-types starts at the class and repeats none |
| JsonUtil.Annotated | trunk/src/main/java/com/googlecode/jsonplugin/JSONUtil.java:235-239 | exactly the `@SMDMethod` methods of the list |
| JsonUtil.AnnotatedInOrder | trunk/src/main/java/com/googlecode/jsonplugin/JSONUtil.java:235-239 | the annotated methods keep the declaration order: the filter distributes over concatenation, and one method is kept iff it is annotated |
| JsonUtil.AddNewInOrder | trunk/src/main/java/com/googlecode/jsonplugin/JSONUtil.java:245-252 | the visitor appends the methods one by one in order: `a + b` is `a` then `b`, and one method is appended iff it is annotated and not yet held |
| JsonUtil.AddNew | trunk/src/main/java/com/googlecode/jsonplugin/JSONUtil.java:245-252 | appends the new annotated methods, keeping what was there and adding no duplicates |
| JsonUtil.CollectAnnotated | trunk/src/main/java/com/googlecode/jsonplugin/JSONUtil.java:243-255 | exactly the annotated methods of the visited classes, without duplicates |
| JsonUtil.ListSMDMethods | trunk/src/main/java/com/googlecode/jsonplugin/JSONUtil.java:232-260 | with `ignoreInterfaces`, the class's own annotated methods; otherwise those of every super-type, each once |
| JsonUtil.CollectAnnotatedSplit | trunk/src/main/java/com/googlecode/jsonplugin/JSONUtil.java:241-258 | listing the visited classes is listing the first j of them and then the rest, so earlier classes' methods come first |
| JsonUtil.ListSMDMethodsOrder | trunk/src/main/java/com/googlecode/jsonplugin/JSONUtil.java:232-260 | the class's own annotated methods come first in declaration order, and the listing cut after any class of the walk is that prefix of the walk's listing |
| JsonResult.Append | trunk/src/main/java/com/googlecode/jsonplugin/JSONResult.java:130-133 | the expression so far, `\.`, then the piece |
| JsonResult.IndexCut | trunk/src/main/java/com/googlecode/jsonplugin/JSONResult.java:139-141 | the cut fails iff the piece holds no `\[` |
| JsonResult.CorrectedCutDropsIndex | trunk/src/main/java/com/googlecode/jsonplugin/JSONResult.java:139-141 | the corrected cut is the expression without its last piece's index suffix |
| JsonResult.FirstLevelAgrees | trunk/src/main/java/com/googlecode/jsonplugin/JSONResult.java:141 | on the first level, where the expression is the piece, the cut as written is correct |
| JsonResult.Extras | trunk/src/main/java/com/googlecode/jsonplugin/JSONResult.java:140-145 | a level adds at most one extra pattern |
| JsonResult.ExpandPieces | trunk/src/main/java/com/googlecode/jsonplugin/JSONResult.java:129-152 | the seen set and the output only grow, and the earlier output is kept as a prefix |
| JsonResult.ExpandPiecesOnlyLevels | trunk/src/main/java/com/googlecode/jsonplugin/JSONResult.java:124-152 | started at a level, the loop adds nothing but later levels and, for an indexed level, its entry without the index |
| JsonResult.ExpandAll | trunk/src/main/java/com/googlecode/jsonplugin/JSONResult.java:123-153 | the output only grows, and every added entry is a level of a listed pattern or that level's entry without the index |
| JsonResult.SetIncludeProperties | trunk/src/main/java/com/googlecode/jsonplugin/JSONResult.java:116-155 | a missing or blank list leaves the include list as it was; otherwise the new list holds only levels of the listed patterns and their entries without the index |
| JsonResult.ExpandPiecesLevels | trunk/src/main/java/com/googlecode/jsonplugin/JSONResult.java:129-152 | every level of a pattern ends up both seen and output |
| JsonResult.ExpandStep | trunk/src/main/java/com/googlecode/jsonplugin/JSONResult.java:129-152 | one step records its level and continues from it |
| JsonResult.ExpandPiecesSeen | trunk/src/main/java/com/googlecode/jsonplugin/JSONResult.java:136 | levels already seen add nothing |
| JsonResult.ExpandAllLevels | trunk/src/main/java/com/googlecode/jsonplugin/JSONResult.java:123-153 | every level of every pattern is included |
| JsonResult.LevelsIncluded | trunk/src/main/java/com/googlecode/jsonplugin/JSONResult.java:116-155 | every level of every listed pattern is in the include list |
| JsonResult.RepeatedPatternAddsNothing | trunk/src/main/java/com/googlecode/jsonplugin/JSONResult.java:136-137 | expanding a pattern a second time changes nothing |
| JsonResult.ListItemsIncludes | trunk/src/main/java/com/googlecode/jsonplugin/JSONResult.java:126-147 | `list\[\d+\]\.items\[\d+\]` expands to its two levels plus `list` and one cut prefix, which is `list\` as written and `list\[\d+\]\.items` corrected |
| JsonResult.SplitTwoLevels | trunk/src/main/java/com/googlecode/jsonplugin/JSONResult.java:126 | a pattern with one `\.` splits into its two pieces |
| JsonResult.SetExcludeProperties | trunk/src/main/java/com/googlecode/jsonplugin/JSONResult.java:96-104 | a missing or blank list keeps the old one; a new list holds non-empty comma-free patterns |
| JsonResult.SetExcludeJoined | trunk/src/main/java/com/googlecode/jsonplugin/JSONResult.java:96-104 | round trip: a comma-joined list of trimmed patterns becomes that list |
| JsonResult.ShouldExcludeMethod | trunk/src/main/java/com/googlecode/jsonplugin/JSONResult.java:286-294 | true iff some exclude pattern matches the method name |
| JsonResult.SmdEntry | trunk/src/main/java/com/googlecode/jsonplugin/JSONResult.java:236-262 | one parameter name per parameter |
| JsonResult.SmdMethods | trunk/src/main/java/com/googlecode/jsonplugin/JSONResult.java:228-269 | at most one entry per method |
| JsonResult.SmdMethodsMembers | trunk/src/main/java/com/googlecode/jsonplugin/JSONResult.java:230-241 | an entry is listed iff it describes an annotated method that is not excluded |
| JsonResult.WriteSmd | trunk/src/main/java/com/googlecode/jsonplugin/JSONResult.java:228-270 | the description holds at most one entry per listed method, and an entry for every listed method that is described |
| JsonResult.ExcludedByJavaName | trunk/src/main/java/com/googlecode/jsonplugin/JSONResult.java:234-235 | an annotated method whose Java name is excluded is not described, whatever its alias, and its entry appears only when another described method has the same entry |
| JsonResult.DefaultParamNames | trunk/src/main/java/com/googlecode/jsonplugin/JSONResult.java:254-256 | an unnamed parameter is `p<i>`, so unnamed parameters get distinct names |
| JsonResult.DescribedCallable | trunk/src/main/java/com/googlecode/jsonplugin/JSONResult.java:228-241 | every described method is listed; a call by its SMD name and arity finds a method of that arity published under that name, and finds this method when no other listed method answers to them |
| JsonResult.GetEncoding | trunk/src/main/java/com/googlecode/jsonplugin/JSONResult.java:302-314 | the configured encoding, else the platform's, else `UTF-8` |
| JsonResult.InitialEncodingUsed | trunk/src/main/java/com/googlecode/jsonplugin/JSONResult.java:55 | the field's initial value, before the container injects `struts.i18n.encoding`, is ISO-8859-1, whatever the platform encoding |
| LegacyJsonResult.Execute | src/main/java/com/googlecode/jsonplugin/JSONResult.java:119-130 | the body is the JSON, or it wrapped in `/* */`; the content type is `application/json;charset=` and the encoding |
| LegacyJsonResult.PlatformEncodingUsed | src/main/java/com/googlecode/jsonplugin/JSONResult.java:147-158 | with no encoding configured, the platform's `file.encoding` is used, else `UTF-8` |
| Text.IndexOf | trunk/src/main/java/com/googlecode/jsonplugin/JSONUtil.java:344 | `indexOf`: the first occurrence; none iff the text does not contain the string |
| Text.LastIndexOf | trunk/src/main/java/com/googlecode/jsonplugin/JSONResult.java:141 | `lastIndexOf`: the last occurrence; none iff absent |
| Text.Trim | trunk/src/main/java/com/googlecode/jsonplugin/JSONUtil.java:212-217 | `trim()`: a slice of the input without blanks at either end; empty iff the input is blank |
| Text.JavaSplit | trunk/src/main/java/com/googlecode/jsonplugin/JSONUtil.java:215 | `split`: the pieces between separators, without trailing empty pieces |
| Text.JoinSplitOn | trunk/src/main/java/com/googlecode/jsonplugin/JSONUtil.java:215 | joining the pieces back with the separator gives the input |
| Text.SplitOnPiecesFree | trunk/src/main/java/com/googlecode/jsonplugin/JSONUtil.java:215 | no piece contains the separator |
| Text.SplitOnJoin | trunk/src/main/java/com/googlecode/jsonplugin/JSONUtil.java:215 | splitting a join of separator-free pieces gives those pieces |
| Text.IntToStringRoundTrip | trunk/src/main/java/com/googlecode/jsonplugin/JSONWriter.java:272 | the decimal text of an index parses back to it |
| Text.IntToStringInjective | trunk/src/main/java/com/googlecode/jsonplugin/JSONWriter.java:272 | distinct indexes have distinct texts |

## Left out
- Dates and calendars: formatting in the writer and parsing in the populator are not modelled. A `Date` target is out of the type model.
- `float` and `double` values carry the integer they came from. Java's floating-point rounding is not modelled.
- `JSONReader` is not modelled. The parse of a request body is a function parameter.
- Regular expressions: compilation and matching are function parameters. A `PatternSyntaxException` from `Pattern.compile` is not modelled.
- Reflection and the `Introspector`: replaced by class and property descriptors given in their declared order. The CGLIB accessor lookup is left out.
- HTTP: the servlet request and response, gzip output, headers, content length, `getWriter` and caching headers are left out. `JSONUtil.writeJSONToResponse` is modelled only as the body text and the content type.
- Logging, and the warning about map keys that are not strings, are left out.
- `JSONCleaner` is not part of this model.
- Serialising the `RPCResponse` and the SMD object is not modelled. The response and the SMD method entries are modelled as values.
- The response `id` is kept as the parsed value whose `toString()` would be stored.
- Two older-revision pieces are function parameters: the four-argument `populator.convert(Class, Type, Object, Method)` used for RPC arguments (`convert`), and the description of an exception put into an `EXCEPTION` error (`describe`). Their code is not part of this model.
- `EXCEPTION` and `SMD_DISABLED` are not in the enum shown, so their numbers are unknown. They are separate error codes in the model.
- `equalsIgnoreCase` and the lower-casing behind it fold ASCII letters only.
- The writer's stack uses object identity (`Ref`), where `Stack.contains` uses `equals`.
- Partial output and the state left behind after an exception are not modelled: a failure fails the whole call.
- The newer interceptor's `Invoke` takes the argument loop as a parameter (`ArgLoop`). `Dispatch`, which models `intercept`, uses the loop as written; the corrected loop is kept for the third finding.
- Each revision's cross-file calls are wired to the modelled function of the same role, not to the exact overload. This covers the newer `JSONUtil.serialize` and `writeJSONToResponse` argument lists, and the older interceptor's call to `listSMDMethods`, which only the newer `JSONUtil` defines.
- Populator.StringToChar: a Dafny `char` is a Unicode scalar value, not a UTF-16 code unit. For a string starting with a character outside the Basic Multilingual Plane, Java's `charAt(0)` gives the high surrogate; the model gives the whole character.
- Populator.Raw: integers are unbounded. The 64-bit `Long` range that parsed integers keep is not enforced; the parser is not part of this model.
- Escape.EscapeString: a Dafny string cannot hold a lone UTF-16 surrogate, so only the U+FFFF cut of `CharacterIterator.DONE` is modelled, not surrogate pairs.
- JsonResult.SetIncludeProperties: the `HashMap` of seen levels is a set. Only the output list's order matters.
- LegacyJsonWriter.IterMembers: a loop that never ends is the `Diverges` error, returned once the 32-bit counter has gone all the way round.

## Findings

| source | as written | input that shows it | evidently intended | confidence | as-written member | corrected member |
|---|---|---|---|---|---|---|
| src/main/java/com/googlecode/jsonplugin/JSONWriter.java:325-331 | an excluded index advances the counter without consuming the element, so every element is written under the next non-excluded index, and the loop never ends when every index is excluded | `[1,2]` with exclude pattern `\[0\]` is written `[1,2]` | an excluded index drops its element, so `[2]` | not executed | LegacyJsonWriter.IterMembers (LegacyJsonWriter.ExcludedFirstElementStillWritten, LegacyJsonWriter.IterationDiverges) | JsonWriter.ElemMembers (JsonWriter.ElementWrittenIffIncluded, LegacyJsonWriter.TrunkDropsExcludedElement) |
| trunk/src/main/java/com/googlecode/jsonplugin/JSONResult.java:141 | the cut takes `lastIndexOf("\\[")` within the piece, then cuts the whole expression at that offset | `list\[\d+\]\.items\[\d+\]` yields the source `list\`, which `Pattern.compile` rejects with a `PatternSyntaxException`, so `setIncludeProperties` throws | cut the expression before its last piece's index: `list\[\d+\]\.items` | not executed | JsonResult.IndexCut with rule `AsWritten` (JsonResult.ListItemsIncludes) | JsonResult.IndexCut with rule `Corrected` (JsonResult.CorrectedCutDropsIndex, JsonResult.ListItemsIncludes) |
| trunk/src/main/java/com/googlecode/jsonplugin/JSONInterceptor.java:182 | `convert(paramType, parameter, method)` reads an array's component type from parameter 0 of `method` | `f(int, String[])` called with `[1, ["x"]]` fails with a null pointer | argument i converted against parameter i | not executed | JsonInterceptor.ConvertArgs (JsonInterceptor.ArrayArgumentNotFirst, JsonInterceptor.ArrayCallFails) | JsonInterceptor.ConvertArgsCorrected (JsonInterceptor.ArrayArgumentConverted, JsonInterceptor.ArrayArgumentsTyped, JsonInterceptor.ConvertArgsAgree, JsonInterceptor.CallWithAgree, JsonInterceptor.InvokeAgree) |

The second finding's two rules are a `CutRule` parameter of the include expansion. The `Corrected` rule is the intended behaviour. Since the model treats regular expressions as opaque, the as-written rule only shows the pattern text that `Pattern.compile` would reject.

The third finding's two loops are an `ArgLoop` parameter of `JsonInterceptor.Invoke`. `JsonInterceptor.Dispatch` uses the loop as written, as the program does. The properties of `Invoke` hold for both loops, and the two agree on every class whose methods take no array after their first parameter.
