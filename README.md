# DynamicObject: typed views over persistent maps

DynamicObject lets Java code use a Clojure persistent map through a Java
interface. Each instance is a proxy: a view type paired with an immutable
backing map. A call on the proxy is dispatched by an invocation handler:

- a builder call returns a new view with one key set;
- a named operation acts on the backing map (`assoc`, `assocEx`, `dissoc`,
  `equals`, `toString` and others);
- any other call is an accessor that reads a keyword from the map.

The handler does its own conversions. A builder or `assoc` stores its
argument as it is, except that a view is stored as its map. An accessor
narrows a value for an `int` or `short` return type and wraps a map for a
view return type; anything else comes back as stored.

Beside the handler sits a type-directed converter, `Conversions`. No code
in this model calls it; it stands on its own:

- `javaToClojure` widens numbers, turns a view into its map tagged with
  `:type` metadata, and rebuilds lists, sets and maps;
- `clojureToJava` narrows numbers, wraps nested views and rebuilds
  collections under a declared generic type.

A process-wide translator registry plugs tagged literals into the edn reader
and printer. `serialize` and `deserialize` go through it.

This project models those three pieces and proves what they promise.

- `values.dfy` (`Values`) defines the value domain: null, booleans,
  integral numbers with their Java kind, strings, keywords, class
  references, opaque objects, lists, sets, maps with metadata, and typed
  views `Dyn(backing, ty)`. It also defines the declared-type descriptors
  `JType`: `Class(kind)`, `Param(base, args)` and `Wildcard`. Java
  exceptions become the `Error` cases of a `Result`.
- `store.dfy` (`Store`) models the persistent map as an association list.
  `assoc` replaces an entry in place or appends one; `without` drops one.
  `Equiv` is the library's `equals` on values: vectors compare element by
  element, sets and maps by size and lookup. Entry order and metadata are
  ignored at every depth.
- `numerics.dfy` (`Numerics`) defines integral upconversion and
  two's-complement narrowing.
- `transients.dfy` (`Transients`) models the transient collections that the
  converter fills with `conj!` and `assoc!` and then freezes.
- `conversions.dfy` (`Conversions`) models `javaToClojure` and
  `clojureToJava` as functions, on their own. The four `convert*` helpers are methods
  with `while` loops, each proved equal to its function.
- `conversion_laws.dfy` (`ConversionLaws`) holds the properties of the
  converter:
  - element-by-element conversion, order and first failure;
  - map conversion, where the last value given to a key wins;
  - the order of the class checks;
  - raw and wildcard collection types;
  - the store round trip of well-typed values.
- `invocation_handler.dfy` (`InvocationHandler`) models the invocation
  handler as a pure function from a handler `(backing, ty)`, a method
  signature and the arguments to a `Reply`.
- `handler_laws.dfy` (`HandlerLaws`) holds the properties of the handler:
  - builders, `assoc` against `assocEx`, removal and equality;
  - lookup order, `@Key` prefixing and integer narrowing;
  - the two defects listed under Findings.
- `dynamic_object.dfy` (`DynamicObject`) holds four things:
  - the static API (`wrap`, `newInstance`, `serialize`, `deserialize`) and
    `RecordTranslator`;
  - the text between them as a tree of forms: `Render` is what `pr-str`
    writes under the installed print methods, and `Read` is what the edn
    reader makes of it under the installed tags. `ReadBack` states on values
    what comes back: fixed-width integers as Longs, classes as symbols,
    maps without metadata;
  - the registry as a class `TranslatorRegistry` whose methods update its
    four tables in place;
  - the same updates as transition functions on the value `Tables`, used to
    reason about sequences of registry operations.

## Model

| member | source | states |
|---|---|---|
| Store.IndexOf | src/main/java/com/github/rschmitt/dynamicobject/DynamicObjectInvocationHandler.java:114 | `entryAt` finds the first position holding the key, and nothing when no entry has it |
| Store.GetAssoc | src/main/java/com/github/rschmitt/dynamicobject/DynamicObjectInvocationHandler.java:41 | after `assoc(k, v)` the key `k` reads `v` and every other key reads as before |
| Store.AssocKeepsDistinct | src/main/java/com/github/rschmitt/dynamicobject/DynamicObjectInvocationHandler.java:41 | `assoc` keeps keys distinct; the map grows by one exactly when the key was absent |
| Store.GetWithout | src/main/java/com/github/rschmitt/dynamicobject/DynamicObjectInvocationHandler.java:55 | on a map with distinct keys, `without(k)` makes `k` absent, leaves every other key as it was and keeps keys distinct |
| Store.WithoutAbsent | src/main/java/com/github/rschmitt/dynamicobject/DynamicObjectInvocationHandler.java:55 | `without` of an absent key returns the same map |
| Store.KeySetSize | src/main/java/com/github/rschmitt/dynamicobject/DynamicObjectInvocationHandler.java:93 | a map with distinct keys has as many keys as entries |
| Store.MapEqualsIffSameGets | src/main/java/com/github/rschmitt/dynamicobject/DynamicObjectInvocationHandler.java:90-95 | the library's map equality (same size, every entry found under its key in the other map with an `Equiv` value) holds exactly when every key gives `Equiv` lookups in both maps; `Equiv` ignores entry order and metadata at every depth |
| Store.NestedOrderIgnored | src/main/java/com/github/rschmitt/dynamicobject/DynamicObjectInvocationHandler.java:90-95 | `{:a {:x 1 :y 2}}` equals `{:a {:y 2 :x 1}}` whatever metadata the inner map carries |
| Numerics.NarrowTo | src/main/java/com/github/rschmitt/dynamicobject/DynamicObjectInvocationHandler.java:143 | `intValue`/`shortValue` truncation gives a value in the target width that is congruent to the input modulo 2^width |
| Numerics.NarrowFitting | src/main/java/com/github/rschmitt/dynamicobject/DynamicObjectInvocationHandler.java:143 | truncating a value that already fits leaves it unchanged |
| Numerics.Upconvert | src/main/java/com/github/rschmitt/dynamicobject/Conversions.java:18-24 | integral values widen to Long, or to BigInt from BigInteger, without changing their value; non-numbers pass unchanged |
| Numerics.Downconvert | src/main/java/com/github/rschmitt/dynamicobject/Conversions.java:73-74 | downconversion succeeds exactly on numbers and null, and a number comes out of the target kind and in its range |
| Numerics.DownconvertUpconvert | src/main/java/com/github/rschmitt/dynamicobject/Conversions.java:18-24 | a number that fits its kind comes back unchanged from upconversion then downconversion |
| Numerics.DownconvertOverflow | src/main/java/com/github/rschmitt/dynamicobject/Conversions.java:73-74 | a number that does not fit is changed by downconversion, and keeps its residue modulo 2^width |
| Transients.LastValue | src/main/java/com/github/rschmitt/dynamicobject/Conversions.java:51 | the reference meaning of a run of `assoc!`: a key has a value exactly when some entry carries it |
| Transients.ConjAllVector | src/main/java/com/github/rschmitt/dynamicobject/Conversions.java:43-47 | a vector filled by `conj!` holds exactly the given elements, in order |
| Transients.ConjAllSet | src/main/java/com/github/rschmitt/dynamicobject/Conversions.java:43-47 | a set filled by `conj!` holds no element equal (by `Equiv`) to an earlier one, holds only given elements, holds an element equal to each given one, and is no longer than the input |
| Transients.ConjAllSetDistinct | src/main/java/com/github/rschmitt/dynamicobject/Conversions.java:43-47 | when no given element equals an earlier one, a set keeps the given elements as they are |
| Transients.AssocAllLastWins | src/main/java/com/github/rschmitt/dynamicobject/Conversions.java:49-53 | a map filled by `assoc!` has distinct keys, and every key reads the last value given to it |
| Transients.AssocAllDistinct | src/main/java/com/github/rschmitt/dynamicobject/Conversions.java:49-53 | when the given keys are distinct, the filled map is exactly the given entries |
| Transients.AssocAllDiscardingSmall | src/main/java/com/github/rschmitt/dynamicobject/Conversions.java:49-53 | the fold that drops the result of `assoc!` agrees with the corrected fold while the map has at most eight keys |
| Transients.NinthKeyDropped | src/main/java/com/github/rschmitt/dynamicobject/Conversions.java:49-53 | with nine distinct keys, the fold that drops the result of `assoc!` keeps the first eight and loses the ninth, where the corrected fold keeps all nine |
| Conversions.ToClojure | src/main/java/com/github/rschmitt/dynamicobject/Conversions.java:23-35 | `javaToClojure` keeps the shape of a value: a list comes back a vector, a set a set, a map or a view a map, a number a number; element-wise content is in `ListToClojure`, `SetToClojure` and `MapToClojureEntries` |
| Conversions.ToJava | src/main/java/com/github/rschmitt/dynamicobject/Conversions.java:70-87 | `clojureToJava` gives a number of the target kind (or null) under a numeric class, a view of the target type under a view class, and otherwise keeps the shape; element-wise content is in `ListToJava`, `SetToJava` and `MapToJavaEntries` |
| Conversions.ConvertCollectionToClojureTypes | src/main/java/com/github/rschmitt/dynamicobject/Conversions.java:43-47 | the `forEach`/`conj!` loop computes the collection conversion, stopping at the first element that fails |
| Conversions.ConvertMapToClojureTypes | src/main/java/com/github/rschmitt/dynamicobject/Conversions.java:49-53 | the `forEach`/`assoc!` loop computes the map conversion; the key converts before the value |
| Conversions.ConvertCollectionToJavaTypes | src/main/java/com/github/rschmitt/dynamicobject/Conversions.java:89-93 | the loop computes the element-wise conversion under the declared type |
| Conversions.ConvertMapToJavaTypes | src/main/java/com/github/rschmitt/dynamicobject/Conversions.java:105-113 | the cast and both type arguments are checked before the loop, which computes the map conversion |
| ConversionLaws.ListToClojure | src/main/java/com/github/rschmitt/dynamicobject/Conversions.java:27-47 | a list becomes a vector of the same length and order whose element i is the conversion of element i; it fails exactly when some element fails, with the first failure |
| ConversionLaws.SetToClojure | src/main/java/com/github/rschmitt/dynamicobject/Conversions.java:29-47 | a set becomes a set of converted elements with no two equal, holding an element equal to each converted element; it fails exactly when some element fails, with the first failure |
| ConversionLaws.MapToClojureEntries | src/main/java/com/github/rschmitt/dynamicobject/Conversions.java:31-53 | every key and value is converted; the result has no metadata, has distinct keys, and every key reads the last value converted to it; with distinct converted keys the result is exactly the converted entries |
| ConversionLaws.ToClojureShape | src/main/java/com/github/rschmitt/dynamicobject/Conversions.java:23-41 | a view becomes exactly its map's entries with `:type` metadata naming its type; a view over null fails; numbers keep their value; scalars are returned unchanged |
| ConversionLaws.TargetClassFirst | src/main/java/com/github/rschmitt/dynamicobject/Conversions.java:70-77 | a numeric class target and a view-type target are handled before any collection check |
| ConversionLaws.ListToJava | src/main/java/com/github/rschmitt/dynamicobject/Conversions.java:79-100 | under a parameterized type a list converts each element with the first type argument and keeps length and order; it fails exactly when some element fails |
| ConversionLaws.SetToJava | src/main/java/com/github/rschmitt/dynamicobject/Conversions.java:81-100 | under a parameterized type a set becomes a set of converted elements with no two equal, holding an element equal to each converted element; it fails exactly when some element fails |
| ConversionLaws.RawCollectionToJava | src/main/java/com/github/rschmitt/dynamicobject/Conversions.java:89-102 | under a declared type that is not parameterized, a non-empty list or set fails as unsupported and an empty one converts to an empty one |
| ConversionLaws.WildcardElement | src/main/java/com/github/rschmitt/dynamicobject/Conversions.java:95-102 | under `List<?>` an element converts as `UnderWildcard` says: empty collections and non-collections pass unchanged (numbers un-narrowed, views not rebuilt), a non-empty list or set is unsupported, and any map fails the cast |
| ConversionLaws.WildcardElements | src/main/java/com/github/rschmitt/dynamicobject/Conversions.java:79-102 | a `List<?>` converts exactly when every element does under `UnderWildcard`, and then comes back unchanged; otherwise it fails with the first failing element's error |
| ConversionLaws.EntriesToJavaEach | src/main/java/com/github/rschmitt/dynamicobject/Conversions.java:108-112 | keys convert with the key type and values with the value type; the result has distinct keys, each reading the last value converted to it |
| ConversionLaws.MapToJavaEntries | src/main/java/com/github/rschmitt/dynamicobject/Conversions.java:83-112 | a map under a type that is not parameterized fails the cast even when empty; fewer than two type arguments fail indexing; otherwise every key and value converts with its own argument |
| ConversionLaws.RoundTrip | src/main/java/com/github/rschmitt/dynamicobject/Conversions.java:23-100 | a well-typed number, scalar or list (nested lists included), stored by `javaToClojure` and read back by `clojureToJava` under its declared type, comes back equal |
| InvocationHandler.KeywordFor | src/main/java/com/github/rschmitt/dynamicobject/DynamicObjectInvocationHandler.java:38 | the reader turns `":" + name` into the keyword `name` exactly when the name is not empty, and rejects it otherwise |
| InvocationHandler.Assoc | src/main/java/com/github/rschmitt/dynamicobject/DynamicObjectInvocationHandler.java:37-43 | `assoc` succeeds exactly on a non-empty key and a map; the result is a view of the same type in which the key reads the argument (a view stored as its map); an empty key is a reader error and a null map a null dereference |
| InvocationHandler.AssocEx | src/main/java/com/github/rschmitt/dynamicobject/DynamicObjectInvocationHandler.java:45-51 | `assocEx` fails on a key already present, and otherwise gives what `assoc` gives |
| InvocationHandler.Without | src/main/java/com/github/rschmitt/dynamicobject/DynamicObjectInvocationHandler.java:53-56 | the private `without` succeeds exactly on a non-empty key and a map, and returns a view of the same type whose map has one entry fewer exactly when the key was present |
| InvocationHandler.FirstKeyIndex | src/main/java/com/github/rschmitt/dynamicobject/DynamicObjectInvocationHandler.java:155-163 | finds the first `@Key` annotation, and nothing exactly when there is none |
| InvocationHandler.NonDefaultKey | src/main/java/com/github/rschmitt/dynamicobject/DynamicObjectInvocationHandler.java:154-164 | no `@Key` gives no entry; the first `@Key` fails exactly when its value is empty or a bare colon; any entry returned is an entry of the map |
| InvocationHandler.GetNonDefaultKey | src/main/java/com/github/rschmitt/dynamicobject/DynamicObjectInvocationHandler.java:154-164 | the annotation loop returns the entry named by the first `@Key`, prefixing `:` only when missing; an empty key fails |
| InvocationHandler.ReturnInt | src/main/java/com/github/rschmitt/dynamicobject/DynamicObjectInvocationHandler.java:140-144 | succeeds exactly on an Integer or a Long; an Integer passes unchanged and a Long becomes the int that fits and agrees with it modulo 2^32; null fails unboxing |
| InvocationHandler.ReturnShort | src/main/java/com/github/rschmitt/dynamicobject/DynamicObjectInvocationHandler.java:146-152 | succeeds exactly on a Short, an Integer or a Long; a Short passes unchanged and the others become the short that fits and agrees with them modulo 2^16; null fails unboxing |
| InvocationHandler.GetValueFor | src/main/java/com/github/rschmitt/dynamicobject/DynamicObjectInvocationHandler.java:111-132 | an empty name is a reader error and a null map a null dereference; a view accessor returns null or a view of its return type; an int or short accessor returns null or a number of its kind; the lookup order is in `HandlerLaws.LookupOrder` |
| InvocationHandler.Invoke | src/main/java/com/github/rschmitt/dynamicobject/DynamicObjectInvocationHandler.java:59-99 | the builder rule comes first, before default methods, and yields a view of the handler's own type; a default method otherwise runs its body; the named operations are stated by the `HandlerLaws` lemmas |
| HandlerLaws.AssocUpdates | src/main/java/com/github/rschmitt/dynamicobject/DynamicObjectInvocationHandler.java:37-43 | `assoc` returns a view of the same type in which the key reads the argument (a view stored as its map) and every other key is unchanged |
| HandlerLaws.WithoutUpdates | src/main/java/com/github/rschmitt/dynamicobject/DynamicObjectInvocationHandler.java:53-56 | the private `without` returns a view of the same type with the key absent and every other key unchanged; an absent key leaves the map as it is |
| HandlerLaws.BuilderAssocs | src/main/java/com/github/rschmitt/dynamicobject/DynamicObjectInvocationHandler.java:62-63 | a method returning the view's own type with an argument is a builder whatever its name or default body, and stores the argument under `:name` |
| HandlerLaws.BuilderThenAccessor | src/main/java/com/github/rschmitt/dynamicobject/DynamicObjectInvocationHandler.java:59-131 | a value set through a builder reads back through the accessor of the same name, narrowed or wrapped as its return type asks, and unchanged for a plain return type |
| HandlerLaws.AssocAgainstAssocEx | src/main/java/com/github/rschmitt/dynamicobject/DynamicObjectInvocationHandler.java:37-51 | `assoc` overwrites without growing the map; `assocEx` fails on a present key and otherwise equals `assoc` |
| HandlerLaws.DissocRemoves | src/main/java/com/github/rschmitt/dynamicobject/DynamicObjectInvocationHandler.java:53-78 | `dissoc` removes exactly the key; an absent key gives back the same map |
| HandlerLaws.WithoutReturnsNull | src/main/java/com/github/rschmitt/dynamicobject/DynamicObjectInvocationHandler.java:68-97 | the interface's `without` falls to field lookup and returns null |
| HandlerLaws.WithoutIntendedRemoves | src/main/java/com/github/rschmitt/dynamicobject/DynamicObject.java:34-37 | routed as declared, `without` removes exactly the key |
| HandlerLaws.EqualsComparesMaps | src/main/java/com/github/rschmitt/dynamicobject/DynamicObjectInvocationHandler.java:90-95 | `equals` holds exactly when the other value (or the other view's map) is a map whose lookups are `Equiv` to this map's for every key; the other view's type is ignored; `toString` and `hashCode` are the map's |
| HandlerLaws.EqualsIgnoresNestedOrder | src/main/java/com/github/rschmitt/dynamicobject/DynamicObjectInvocationHandler.java:90-95 | a view over `{:a {:x 1 :y 2}}` equals a view over `{:a {:y 2 :x 1}}` whose inner map carries type metadata |
| HandlerLaws.LookupOrder | src/main/java/com/github/rschmitt/dynamicobject/DynamicObjectInvocationHandler.java:111-131 | for every return type, an accessor reads `:name` when present, the first `@Key` entry only when `:name` is absent, and null when neither is present; what it found is narrowed for an int or short accessor and returned as is for any other non-view accessor; a view accessor wraps the value under `:name`, so a view found through `@Key` comes back over null (second Findings row) |
| HandlerLaws.KeyPrefixIdempotent | src/main/java/com/github/rschmitt/dynamicobject/DynamicObjectInvocationHandler.java:157-160 | `@Key("x")` and `@Key(":x")` name the same entry, and prefixing twice changes nothing |
| HandlerLaws.WrapThenGetters | src/main/java/com/github/rschmitt/dynamicobject/DynamicObject.java:81-85 | `wrap(m, c)` performs no check: the view's `getMap` returns `m` itself and `getType` returns `c`, whatever `m` is |
| HandlerLaws.NewInstanceFieldsNull | src/main/java/com/github/rschmitt/dynamicobject/DynamicObject.java:87-93 | every field of a fresh instance reads as null |
| HandlerLaws.NarrowingAccessors | src/main/java/com/github/rschmitt/dynamicobject/DynamicObjectInvocationHandler.java:140-152 | int and short accessors pass their own kind unchanged and truncate wider integers; the result equals the input exactly when it fits; a null value fails unboxing |
| HandlerLaws.KeyedNestedViewWrapsNull | src/main/java/com/github/rschmitt/dynamicobject/DynamicObjectInvocationHandler.java:127-130 | a nested-view accessor whose map is found through `@Key` returns a view over null, and field lookups on that view fail |
| HandlerLaws.KeyedNestedViewIntended | src/main/java/com/github/rschmitt/dynamicobject/DynamicObjectInvocationHandler.java:111-131 | wrapping the entry that was found gives the nested view over the map stored under `@Key` |
| DynamicObject.ReadRendered | src/main/java/com/github/rschmitt/dynamicobject/DynamicObject.java:54-71 | the reader accepts the text the printer writes for a value exactly when the value is `Printable`, and then gives `ReadBack` of it: integers of every fixed width as Longs, classes as symbols, maps without metadata, views and host objects through the translator of their tag |
| DynamicObject.ExactReadsBack | src/main/java/com/github/rschmitt/dynamicobject/DynamicObject.java:54-71 | a value whose integers are Longs or BigInts, with no class object, no metadata, no equal set elements or map keys, and only translated views and objects, is printable and reads back as itself |
| DynamicObject.RecordTranslatorRoundTrip | src/main/java/com/github/rschmitt/dynamicobject/DynamicObject.java:162-171 | a RecordTranslator writes the printed map and its read wraps what the reader makes of it: a view comes back over its map read back, and as itself when the map is `Exact`; the text reads back exactly when the map is `Printable` |
| DynamicObject.SerializeRoundTrip | src/main/java/com/github/rschmitt/dynamicobject/DynamicObject.java:54-75 | for a view whose type is not a record type or has its tag installed, serialize then deserialize succeeds exactly when the map is `Printable`, and gives a view over the map read back: of the record type itself, whatever type is asked for, or else of the type asked for; a view over an `Exact` map comes back equal |
| DynamicObject.NarrowFieldReadsBackAsLong | src/main/java/com/github/rschmitt/dynamicobject/DynamicObject.java:54-75 | a field stored as a Byte, Short or Integer (as an `int` builder stores it) reads back as a Long, so the deserialized view is not `Equiv` to the one serialized |
| DynamicObject.ReadThenPrint | src/test/java/com/github/rschmitt/dynamicobject/TaggedReaderTest.java:35-42 | in a consistent registry, a tagged literal read through a custom translator gives the object, and the object prints as the same tagged literal |
| DynamicObject.DeserializeThenSerializeRestores | src/main/java/com/github/rschmitt/dynamicobject/DynamicObject.java:54-75 | the text printed for an `Exact` value comes back as the same text through `deserialize` then `serialize`: a map read as a type that is not a record type, or a view of a record type whatever type is asked for |
| DynamicObject.TaggedReaderRoundTrip | src/test/java/com/github/rschmitt/dynamicobject/TaggedReaderTest.java:13-33 | with DumbClass's translator registered, `{:dumb [#MyDumbClass{...}]}` read as a holder gives a map whose `:dumb` list holds the translated object, and prints back as the same text |
| DynamicObject.RegisterTypeInstalls | src/main/java/com/github/rschmitt/dynamicobject/DynamicObject.java:99-111 | a successful `registerType` sets the cache, reader and print-method entries and changes nothing else |
| DynamicObject.RegisterTypeDuplicateTag | src/main/java/com/github/rschmitt/dynamicobject/DynamicObject.java:101-104 | a taken tag throws after the cache was written, and only the cache changes; when the tag's reader is another translator, this breaks the consistency of a consistent registry |
| DynamicObject.DeregisterUnregistered | src/main/java/com/github/rschmitt/dynamicobject/DynamicObject.java:118-123 | `deregisterType` of an unregistered class throws and changes nothing |
| DynamicObject.RegisterThenDeregisterRestores | src/main/java/com/github/rschmitt/dynamicobject/DynamicObject.java:99-132 | registering a fresh class under a fresh tag and then deregistering it restores every table |
| DynamicObject.RegisterTypeKeepsConsistent | src/main/java/com/github/rschmitt/dynamicobject/DynamicObject.java:99-111 | a successful `registerType` keeps the registry consistent |
| DynamicObject.DeregisterTypeKeepsConsistent | src/main/java/com/github/rschmitt/dynamicobject/DynamicObject.java:118-132 | `deregisterType` keeps the registry consistent |
| DynamicObject.RegisterTypeStep | src/main/java/com/github/rschmitt/dynamicobject/DynamicObject.java:99-111 | `registerType` throws exactly when the tag is taken; the cache entry is written either way and `records` never changes; a throw leaves readers and print methods as they were |
| DynamicObject.DeregisterTypeStep | src/main/java/com/github/rschmitt/dynamicobject/DynamicObject.java:118-132 | `deregisterType` throws exactly on an unregistered class and then changes nothing; otherwise the class has no cache entry and no print method and its tag has no reader |
| DynamicObject.RegisterTagStep | src/main/java/com/github/rschmitt/dynamicobject/DynamicObject.java:138-143 | `registerTag` succeeds exactly on a free tag, and then installs a RecordTranslator as the tag's reader and the print method and makes the type a record type; a throw leaves `records` as it was |
| DynamicObject.DeregisterTagStep | src/main/java/com/github/rschmitt/dynamicobject/DynamicObject.java:148-150 | `deregisterTag` throws exactly on an unregistered class; it removes the print method but never changes `records` |
| DynamicObject.RegisterTagInstalls | src/main/java/com/github/rschmitt/dynamicobject/DynamicObject.java:138-143 | `registerTag` installs a RecordTranslator with the given tag as reader and print method, and adds the type to `records` |
| DynamicObject.RecordsOnlyGrow | src/main/java/com/github/rschmitt/dynamicobject/DynamicObject.java:138-150 | no sequence of registry operations removes a type from `records` |
| DynamicObject.DeregisterTagBreaksRoundTrip | src/main/java/com/github/rschmitt/dynamicobject/DynamicObject.java:148-150 | after `registerTag` then `deregisterTag`, the type stays in `records` and a round trip that worked before now fails |
| DynamicObject.DeregisterTagIntendedRestores | src/main/java/com/github/rschmitt/dynamicobject/DynamicObject.java:145-150 | a `deregisterTag` that also forgets the record type restores all four tables, and the round trip keeps working |
| DynamicObject.TranslatorRegistry.constructor | src/main/java/com/github/rschmitt/dynamicobject/DynamicObject.java:179-182 | the registry starts with all tables empty |
| DynamicObject.TranslatorRegistry.RegisterType | src/main/java/com/github/rschmitt/dynamicobject/DynamicObject.java:99-111 | writes the cache, then throws on a taken tag or installs the reader and the print method |
| DynamicObject.TranslatorRegistry.DeregisterType | src/main/java/com/github/rschmitt/dynamicobject/DynamicObject.java:118-132 | throws on an unregistered class with nothing changed, and otherwise removes the reader, the print method and the cache entry |
| DynamicObject.TranslatorRegistry.RegisterTag | src/main/java/com/github/rschmitt/dynamicobject/DynamicObject.java:138-143 | registers a RecordTranslator and, only if that succeeded, adds the type to `records` |
| DynamicObject.TranslatorRegistry.DeregisterTag | src/main/java/com/github/rschmitt/dynamicobject/DynamicObject.java:148-150 | is `deregisterType` and leaves `records` unchanged |

The code and its own comments disagree in two places. The model follows the
code.

- Raw collection types: the comment at `Conversions.java:63` says no action
  is taken. The code throws `UnsupportedOperationException` for any
  non-empty list or set (`ConversionLaws.RawCollectionToJava`).
- Wildcard element types: the comment at `Conversions.java:64` says they
  throw. The code throws only for nested non-empty collections and for
  maps; everything else passes unchanged (`ConversionLaws.WildcardElement`).

## Left out

- Floating point is not modelled: `returnFloat`, the Double-to-Float narrowing and float-to-double upconversion.
- Proxy creation and `invokeDefaultMethod` are reflection plumbing. A default method is the reply `InvokeDefault`, and the default body is not run.
- The registry's concurrency is not modelled: `synchronized`, `volatile`, `ConcurrentHashMap` and the synchronized set. The registry is sequential.
- `prettyPrint`, `toFormattedString`, `toString` and `hashCode` produce text or a hash. Their output is not modelled; they are replies naming the map they act on.
- The edn reader and `pr-str` are external. Text is a tree of forms (`DynamicObject.Form`), not characters:
  - tokenizing, string escapes, symbol syntax and `::` are not modelled; `ReadKeyword` only accepts a colon followed by a non-empty name;
  - the rules followed are Clojure's: metadata is not printed, a class prints as its name, a BigInteger prints with the suffix BIGINT and an object without a print method as `#object[...]`, both of which the reader rejects, and an integer literal reads as a Long when it fits and as a BigInt otherwise;
  - the reader's duplicate check on set literals uses `Store.Equiv` and on map literals structural key equality, like the rest of the model;
  - a host object whose print method is a RecordTranslator fails the write's cast to a view; the model renders it as unreadable text, so the error surfaces at reading.
- `Numerics`, `Metadata`, `ClojureStuff`, `Key` and `EdnTranslator` are not part of this model.
  - Upconversion follows the comment at `Conversions.java:18`.
  - Downconversion narrows by two's-complement truncation and lets null pass.
  - Metadata is a field of the map value; `Store.Equiv` ignores it at every depth.
- Numerics.Downconvert: narrows a value that does not fit instead of failing, because the narrowing rule of the `Numerics` helper is not part of this model.
- Custom translators are opaque: their `read` and `write` are modelled as exact inverses.
- Hash iteration order is modelled as insertion order for maps and sets, so "the first failing element" is the first in that order.
- Java assertions are taken as disabled (`Conversions.java:99,107`), so extra type arguments are ignored.
- The proxy's cast or unboxing of the reply to the declared return type is not modelled: the reply is what the handler returns. A null from a primitive accessor, a `long` accessor over an Integer stored by an `int` builder, or a `String` accessor over a stored Long would throw there; `Return(v)` and `HandlerLaws.BuilderThenAccessor` stop at the handler.
- `Conversions.java:76` wraps any object, not only maps. `ToJava` wraps whatever value it finds, and a view over a non-map fails only when a field is read.
- ConversionLaws.RoundTrip: covers numbers, scalars and lists only. After upconversion the elements of a set, or the keys of a map, can become equal, so sets and maps need not round-trip.
- RecordTranslator.write of a value that is not a view is not modelled.
- Store.MapEqualsIffSameGets: map keys are compared by structural equality, not by the library's `equiv` and hash, so two keys that are maps differing only in entry order or metadata count as different keys. Keys are keywords in every map the handler builds.
- Transients.ConjAllSet: set membership uses `Store.Equiv`, the library's `equals`; the library's hash-based `equiv` also equates numbers of different kinds, which the model keeps apart.
- Transients.AssocAll: `assoc!` and `conj!` are modelled as updating the transient they are given. The conversions drop their results (`Conversions.java:45,51,91,111`). That is harmless for vectors, sets and hash maps, whose transients return themselves, but not for an array map: see Findings.

## Findings

| source | as written | input that shows it | evidently intended | confidence | as-written member | corrected member |
|---|---|---|---|---|---|---|
| src/main/java/com/github/rschmitt/dynamicobject/DynamicObjectInvocationHandler.java:77-78 | `invoke` routes only the name `"dissoc"` to the private `without`; the interface method `without` (`DynamicObject.java:37`) falls through to `getValueFor` | `view.without("k")` on a view whose map has no `:without` key | a view of the same type without `:k` | high, not executed | HandlerLaws.WithoutReturnsNull | HandlerLaws.WithoutIntendedRemoves |
| src/main/java/com/github/rschmitt/dynamicobject/DynamicObjectInvocationHandler.java:127-130 | a nested-view accessor wraps `map.valAt(":" + methodName)`, not the entry found through `@Key` | `@Key("inner") Inner nested()` on the map `{:inner {:a 1}}` | the view over `{:a 1}` | high, not executed | HandlerLaws.KeyedNestedViewWrapsNull | HandlerLaws.KeyedNestedViewIntended |
| src/main/java/com/github/rschmitt/dynamicobject/DynamicObject.java:148-150 | `deregisterTag` only calls `deregisterType`, so the type stays in `records`, and `serialize` keeps handing the view to a printer that no longer has a print method for it | `registerTag(C, "t")`, `deregisterTag(C)`, then `deserialize(serialize(c), C)` | the type stops being a record type and serializes as a plain map | medium, not executed | DynamicObject.DeregisterTagBreaksRoundTrip | DynamicObject.DeregisterTagIntendedRestores |
| src/main/java/com/github/rschmitt/dynamicobject/Conversions.java:49-53 | the map conversions (here and at lines 105-112) call `assoc!` on the first transient and drop what it returns; a transient array map holds eight entries, and `assoc!` of a new key into a full one returns a new transient hash map | a `java.util.Map` with nine distinct keys, when `EMPTY_MAP` is an array map | a map holding all nine entries | medium, not executed | Transients.NinthKeyDropped | Transients.AssocAllDiscardingSmall |

For the first two findings, `InvocationHandler.InvokeIntended` is the
corrected dispatch. `HandlerLaws.BuilderAssocs`,
`HandlerLaws.AssocAgainstAssocEx`, `HandlerLaws.EqualsComparesMaps` and
`HandlerLaws.LookupOrder` also prove that it agrees with `Invoke` outside the
two defects. For the third, `DynamicObject.DeregisterTagIntendedStep` is the
corrected transition. For the fourth, `Transients.AssocAll` is the corrected
fold that the rest of the model uses, and `Transients.AssocAllLastWins` and
`Transients.AssocAllDistinct` prove what it keeps; `ClojureStuff.EMPTY_MAP` is
not part of this model, which is why the confidence is medium.
