# OpenTracing propagation core, modelled in Dafny

This project models the in-memory core of the Java 8 OpenTracing
implementation (`io.opentracing.propagation`):

- **the propagation registry** (`AbstractTracer.PropagationRegistry`). It
  holds two independent tables keyed by carrier class: injectors and
  extractors. Registration is first-write-wins (`putIfAbsent`). Lookup walks
  the carrier class's superclass chain, then runs an "interface" phase.
- **the span builder** (`SpanBuilderImpl`). It is a record of fields that
  the `withX` calls update. It has three separately typed tag maps.
  `withStartTimestamp` converts microseconds to an `Instant`. `start()`
  hands the builder's state to a new span in a fixed order.
- **the built-in text-map injector** (`TextFormatInjectorImpl`). It writes a
  span's trace state, stringified, into a `Map<String, String>` carrier.
  Then, if baggage is enabled, it writes the baggage.
- **the tracer's delegation** (`AbstractTracer`). It registers the built-in
  injector for `java.util.Map` on construction. It dispatches `inject` and
  `join` on the carrier's runtime class.

Modules, one per file:

| file | module | models |
|---|---|---|
| `wrappers.dfy` | `Wrappers` | `Option` (a Java `null`) and `Result` (a call that may throw) |
| `hierarchy.dfy` | `Hierarchy` | an abstract class hierarchy: superclass map with a rank measure, declared interfaces |
| `registry.dfy` | `Registry` | `PropagationRegistry`: `register`, `getInjector`, `getExtractor` |
| `timestamp.dfy` | `Timestamp` | Java `long`, `TimeUnit` conversions, `Instant.ofEpochSecond` |
| `spans.dfy` | `Spans` | values exchanged with spans; `HashMap` iteration orders |
| `span_builder.dfy` | `SpanBuilder` | `SpanBuilderImpl` and `start()` |
| `text_injector.dfy` | `TextInjector` | `TextFormatInjectorImpl` |
| `tracer.dfy` | `Tracer` | `AbstractTracer`: construction, `buildSpan`, `register`, `inject`, `join` |

Modelling choices:

- Java reflection becomes data. A `ClassHierarchy` holds a partial
  superclass map, a rank that decreases towards the root (so every walk
  ends), the directly declared interfaces, and the set of interfaces.
- Lookup is modelled **as written**, and the defect is stated as lemmas.
  After the `do`/`while` the variable `c` is always null. The interface loop
  tests `c`, not `iface`. `ConcurrentHashMap.containsKey(null)` throws
  `NullPointerException`. So a carrier class that declares any interface
  gets a `NullKey` failure. One that declares none gets the
  `AssertionError` (`NoCodecRegistered`). An interface registration, such
  as `Map.class` from the constructor, is never found.
- `HashMap` iteration order is unspecified, so every loop over a map takes
  its key order as a parameter (`Enumerates`). The results are proved
  independent of that order where the source promises it.
- `SpanImpl` is not part of this model. A started span is its constructor
  arguments plus the calls `start()` makes on it (`PutAllTraceState`,
  `SetTag`, `SetBaggageItem`). An injector sees only the span's trace-state
  and baggage maps (`SpanState`).
- `toString()` of a trace-state value is a function parameter `show`.
  `Boolean.getBoolean("opentracing.propagation.dropBaggage")` is the
  parameter `dropBaggage`. `Instant.now()` is the parameter `now`.
- `TimeUnit`'s saturating multiplication and Java's wrapping `long`
  subtraction are written out. The exactness lemmas assume
  `micros * 1000` fits in a `long`. `Instant.ofEpochSecond` is modelled
  with its floor normalisation of the nano adjustment.

## Model

| member | source | states |
|---|---|---|
| `Registry.EmptyRegistry` | opentracing-impl-java8/src/main/java/io/opentracing/propagation/AbstractTracer.java:61-64 | a new registry has no injector and no extractor |
| `Registry.PutIfAbsent` | opentracing-impl-java8/src/main/java/io/opentracing/propagation/AbstractTracer.java:102-108 | the previous value is returned exactly when the key was present; a present key keeps its value, an absent key gets the new one, the key set grows by that key only, and every other entry is unchanged |
| `Registry.RegisterInjector` | opentracing-impl-java8/src/main/java/io/opentracing/propagation/AbstractTracer.java:102-104 | first-write-wins insert into the injector table that returns the previously registered injector, changes no other carrier type and leaves the extractor table equal to before |
| `Registry.RegisterExtractor` | opentracing-impl-java8/src/main/java/io/opentracing/propagation/AbstractTracer.java:106-108 | the same for the extractor table, leaving the injector table equal to before |
| `Registry.RegisterFirstWins` | opentracing-impl-java8/src/main/java/io/opentracing/propagation/AbstractTracer.java:102-104 | registering a second injector for a type returns the first one and leaves the registry as the first registration left it |
| `Registry.RegisterExtractorFirstWins` | opentracing-impl-java8/src/main/java/io/opentracing/propagation/AbstractTracer.java:106-108 | the same for extractors |
| `Hierarchy.GetSuperclass` | opentracing-impl-java8/src/main/java/io/opentracing/propagation/AbstractTracer.java:73 | null exactly for a class without a superclass; otherwise a class of strictly smaller depth, so the superclass walk ends |
| `Hierarchy.GetInterfaces` | opentracing-impl-java8/src/main/java/io/opentracing/propagation/AbstractTracer.java:76 | the carrier class's directly declared interfaces, in declaration order; characterised by `Registry.LookupIgnoresInterfaces` and `Registry.LookupIntendedFindsInterface` |
| `Hierarchy.Chain` | opentracing-impl-java8/src/main/java/io/opentracing/propagation/AbstractTracer.java:69-74 | the classes the `do`/`while` visits: the carrier type first, each next one the superclass of the previous, ending at a class without a superclass |
| `Registry.SuperclassPhase` | opentracing-impl-java8/src/main/java/io/opentracing/propagation/AbstractTracer.java:69-74 | a registered carrier type is answered with its own codec; a codec found is one held by the table; the loop exits without a codec only with `c` null |
| `Registry.ContainsKey` | opentracing-impl-java8/src/main/java/io/opentracing/propagation/AbstractTracer.java:77 | `containsKey` on a concurrent map throws for a null key and otherwise tells whether the key is registered |
| `Registry.InterfacePhase` | opentracing-impl-java8/src/main/java/io/opentracing/propagation/AbstractTracer.java:76-80 | with no declared interfaces the loop finds nothing; with one or more and `c` null it throws `NullPointerException`; anything it returns is the codec of `c`, never of an interface |
| `Registry.Lookup` | opentracing-impl-java8/src/main/java/io/opentracing/propagation/AbstractTracer.java:66-82 | a registered carrier type resolves to exactly its own codec, and any codec returned is one held by the table |
| `Registry.GetInjector` | opentracing-impl-java8/src/main/java/io/opentracing/propagation/AbstractTracer.java:66-82 | the same over the injector table |
| `Registry.GetExtractor` | opentracing-impl-java8/src/main/java/io/opentracing/propagation/AbstractTracer.java:84-100 | the same over the extractor table |
| `Registry.SuperclassPhaseFindsNearest` | opentracing-impl-java8/src/main/java/io/opentracing/propagation/AbstractTracer.java:69-74 | the walk finds a codec exactly when some class on the superclass chain is registered, and it is the codec of the nearest one: no class before it on the chain is registered |
| `Registry.LookupFindsNearest` | opentracing-impl-java8/src/main/java/io/opentracing/propagation/AbstractTracer.java:66-82 | lookup succeeds exactly when some class on the carrier type's superclass chain is registered, and then returns the nearest such class's codec |
| `Registry.LookupIgnoresInterfaces` | opentracing-impl-java8/src/main/java/io/opentracing/propagation/AbstractTracer.java:76-81 | with no registered class on the chain, lookup throws whatever the interfaces hold: `NullPointerException` if the carrier type declares any interface, the `AssertionError` if it declares none |
| `Registry.LookupReadsOnlyChain` | opentracing-impl-java8/src/main/java/io/opentracing/propagation/AbstractTracer.java:66-82 | two tables that agree on the superclass chain give the same lookup result: nothing off the chain is ever consulted |
| `Registry.InterfaceRegistrationInvisible` | opentracing-impl-java8/src/main/java/io/opentracing/propagation/AbstractTracer.java:76-80 | registering an injector under an interface changes no lookup for any class that is not an interface |
| `Registry.LookupIntended` | opentracing-impl-java8/src/main/java/io/opentracing/propagation/AbstractTracer.java:76-80 | the corrected lookup that tests each declared interface: it answers a registered carrier type with its own codec and returns only codecs held by the table |
| `Registry.LookupIntendedFindsInterface` | opentracing-impl-java8/src/main/java/io/opentracing/propagation/AbstractTracer.java:76-80 | with no registered class on the chain, the corrected lookup returns the codec of the first registered declared interface |
| `Registry.LookupIntendedFailsWhenNothingMatches` | opentracing-impl-java8/src/main/java/io/opentracing/propagation/AbstractTracer.java:76-81 | with no registered class on the chain and no registered declared interface, the corrected lookup still throws the `AssertionError` naming the carrier type |
| `Registry.LookupIntendedAgrees` | opentracing-impl-java8/src/main/java/io/opentracing/propagation/AbstractTracer.java:69-74 | whenever a class on the chain is registered, the corrected lookup and the lookup as written agree |
| `Timestamp.TruncDiv` | opentracing-impl-java8/src/main/java/io/opentracing/propagation/AbstractTracer.java:157 | Java division rounds toward zero: the remainder is in `[0, d)` for a non-negative dividend and in `(-d, 0]` for a negative one |
| `Timestamp.WrapLong` | opentracing-impl-java8/src/main/java/io/opentracing/propagation/AbstractTracer.java:158 | a `long` subtraction keeps any result that fits and otherwise differs from the exact one by a multiple of 2^64 |
| `Timestamp.SaturatingMul` | opentracing-impl-java8/src/main/java/io/opentracing/propagation/AbstractTracer.java:158 | `TimeUnit` multiplication is exact within `[-over, over]` and clamps to the greatest or least `long` beyond it, where the exact product does not fit |
| `Timestamp.MicrosToSeconds` | opentracing-impl-java8/src/main/java/io/opentracing/propagation/AbstractTracer.java:157 | whole seconds toward zero: the microseconds left over are below one second and carry the sign of the input |
| `Timestamp.MicrosToNanos` | opentracing-impl-java8/src/main/java/io/opentracing/propagation/AbstractTracer.java:158 | exact nanoseconds when `micros * 1000` fits a `long`, otherwise the bound on the side of the input's sign |
| `Timestamp.SecondsToNanos` | opentracing-impl-java8/src/main/java/io/opentracing/propagation/AbstractTracer.java:158 | exact nanoseconds when the product fits a `long` |
| `Timestamp.EpochPairExact` | opentracing-impl-java8/src/main/java/io/opentracing/propagation/AbstractTracer.java:156-158 | when `micros * 1000` fits: seconds is `micros` divided toward zero by 10^6; `seconds * 10^9 + nanos == micros * 1000`; `abs(nanos) < 10^9`; nanos is a multiple of 1000 and has the sign of `micros` |
| `Timestamp.ToEpochPair` | opentracing-impl-java8/src/main/java/io/opentracing/propagation/AbstractTracer.java:157-158 | the `(epochSeconds, nanos)` pair; characterised by `Timestamp.EpochPairExact` |
| `Timestamp.StartInstant` | opentracing-impl-java8/src/main/java/io/opentracing/propagation/AbstractTracer.java:157-159 | the instant stored as the start; characterised by `Timestamp.StartInstantRoundTrip` |
| `Timestamp.OfEpochSecond` | opentracing-impl-java8/src/main/java/io/opentracing/propagation/AbstractTracer.java:159 | the instant denotes the same total of nanoseconds, with its nano-of-second in `[0, 10^9)` |
| `Timestamp.StartInstantRoundTrip` | opentracing-impl-java8/src/main/java/io/opentracing/propagation/AbstractTracer.java:156-161 | the stored start instant is exactly `micros * 1000` nanoseconds after the epoch, and reading it back in microseconds gives `micros` |
| `Timestamp.StartInstantExample` | opentracing-impl-java8/src/main/java/io/opentracing/propagation/AbstractTracer.java:156-161 | 1_500_000_123 microseconds becomes second 1500 and nano 123_000, and reads back unchanged |
| `Timestamp.StartInstantNegativeExample` | opentracing-impl-java8/src/main/java/io/opentracing/propagation/AbstractTracer.java:156-161 | -1 microsecond gives the pair (0, -1000), which the instant carries into second -1 and nano 999_999_000 |
| `SpanBuilder.NewBuilder` | opentracing-impl-java8/src/main/java/io/opentracing/propagation/AbstractTracer.java:113-123 | a new builder has no name, no parent and empty maps, and its start is the clock reading taken at construction |
| `SpanBuilder.WithOperationName` | opentracing-impl-java8/src/main/java/io/opentracing/propagation/AbstractTracer.java:125-129 | sets the operation name and nothing else |
| `SpanBuilder.WithParent` | opentracing-impl-java8/src/main/java/io/opentracing/propagation/AbstractTracer.java:131-135 | the parent becomes the argument, where `None` is a Java `null` that clears a parent set earlier; nothing else changes |
| `SpanBuilder.ParentLastWriteWins` | opentracing-impl-java8/src/main/java/io/opentracing/propagation/AbstractTracer.java:163-165 | the last `withParent` decides the parent, and a `null` given last makes `start()` create a span without a parent |
| `SpanBuilder.WithStringTag` | opentracing-impl-java8/src/main/java/io/opentracing/propagation/AbstractTracer.java:137-141 | the string tag map gains the key with the new value and keeps every other entry; no other field changes |
| `SpanBuilder.WithBooleanTag` | opentracing-impl-java8/src/main/java/io/opentracing/propagation/AbstractTracer.java:143-147 | the same for the boolean tag map |
| `SpanBuilder.WithNumberTag` | opentracing-impl-java8/src/main/java/io/opentracing/propagation/AbstractTracer.java:149-153 | the same for the number tag map |
| `SpanBuilder.TagLastWriteWins` | opentracing-impl-java8/src/main/java/io/opentracing/propagation/AbstractTracer.java:137-153 | writing a key twice in one tag map equals writing only the second value |
| `SpanBuilder.TagTypesIndependent` | opentracing-impl-java8/src/main/java/io/opentracing/propagation/AbstractTracer.java:137-153 | a string tag and a number tag under one key coexist, and the two writes commute |
| `SpanBuilder.WithStartTimestamp` | opentracing-impl-java8/src/main/java/io/opentracing/propagation/AbstractTracer.java:155-161 | only the start changes; its nano-of-second is in range, and when `micros * 1000` fits a `long` the start is exactly `micros * 1000` nanoseconds after the epoch, so it reads back as `micros` |
| `SpanBuilder.Start` | opentracing-impl-java8/src/main/java/io/opentracing/propagation/AbstractTracer.java:163-172 | the span gets the builder's name, parent and start; it makes one trace-state copy first and never again; string, boolean and number tags, then baggage, in that phase order; each builder entry appears exactly as a call and no other call appears |
| `SpanBuilder.StartCalls` | opentracing-impl-java8/src/main/java/io/opentracing/propagation/AbstractTracer.java:166-170 | the calls `start()` makes on the new span; characterised by `SpanBuilder.Start` |
| `SpanBuilder.MergedTagPrecedence` | opentracing-impl-java8/src/main/java/io/opentracing/propagation/AbstractTracer.java:167-169 | for a key used in several tag maps, the last `setTag` is the number tag, else the boolean tag, else the string tag |
| `TextInjector.BaggageEnabledDefault` | opentracing-impl-java8/src/main/java/io/opentracing/propagation/AbstractTracer.java:30 | the process default of the baggage flag; characterised by `TextInjector.DefaultFlagDecidesBaggage` |
| `TextInjector.NewTextFormatInjector` | opentracing-impl-java8/src/main/java/io/opentracing/propagation/TextFormatInjectorImpl.java:22 | a new injector's flag is the process default |
| `TextInjector.SetBaggageEnabled` | opentracing-impl-java8/src/main/java/io/opentracing/propagation/TextFormatInjectorImpl.java:41-43 | the flag becomes the argument |
| `TextInjector.DefaultFlagDecidesBaggage` | opentracing-impl-java8/src/main/java/io/opentracing/propagation/TextFormatInjectorImpl.java:22-38 | a fresh injector with the drop-baggage property set adds only trace-state keys to the carrier; without it, it writes the stringified trace state and then every baggage entry |
| `TextInjector.SetBaggageEnabledDecidesBaggage` | opentracing-impl-java8/src/main/java/io/opentracing/propagation/TextFormatInjectorImpl.java:34-43 | after `setBaggageEnabled(enabled)` the injector writes the baggage exactly when `enabled` holds, whatever the flag was before |
| `TextInjector.PutEach` | opentracing-impl-java8/src/main/java/io/opentracing/propagation/TextFormatInjectorImpl.java:31-37 | one `put` loop over a map's entries; characterised by `TextInjector.PutEachOverrides` |
| `TextInjector.PutEachOverrides` | opentracing-impl-java8/src/main/java/io/opentracing/propagation/TextFormatInjectorImpl.java:31-33 | a loop of `put` calls in any key order equals overriding the carrier with the visited entries |
| `TextInjector.InjectSpan` | opentracing-impl-java8/src/main/java/io/opentracing/propagation/TextFormatInjectorImpl.java:30-39 | the carrier becomes carrier, overridden by the stringified trace state, overridden by the baggage when enabled; every trace-state key maps to its stringified value unless enabled baggage has that key; enabled baggage entries appear with their values; other keys keep their values |
| `TextInjector.InjectOnlyAdds` | opentracing-impl-java8/src/main/java/io/opentracing/propagation/TextFormatInjectorImpl.java:30-39 | the carrier never loses a key, and with baggage disabled it gains only trace-state keys |
| `TextInjector.InjectIdempotent` | opentracing-impl-java8/src/main/java/io/opentracing/propagation/TextFormatInjectorImpl.java:30-39 | injecting the same span a second time leaves the carrier unchanged |
| `TextInjector.InjectOrderIndependent` | opentracing-impl-java8/src/main/java/io/opentracing/propagation/TextFormatInjectorImpl.java:31-38 | the result does not depend on the iteration order of either map |
| `TextInjector.InjectExample` | opentracing-impl-java8/src/main/java/io/opentracing/propagation/TextFormatInjectorImpl.java:30-39 | trace state `{trace-id: abc, span-id: 1}` and baggage `{user: 42}` give all three entries with baggage enabled and only the two trace-state entries with it disabled |
| `Tracer.NewTracer` | opentracing-impl-java8/src/main/java/io/opentracing/propagation/AbstractTracer.java:32-36 | a new tracer registers exactly one injector, the built-in one under `java.util.Map` with the default flag, and no extractor |
| `Tracer.BuildSpan` | opentracing-impl-java8/src/main/java/io/opentracing/propagation/AbstractTracer.java:38-41 | a fresh builder carrying the operation name, no parent, no tags, an empty trace state and no baggage |
| `Tracer.BuildSpanStartsBare` | opentracing-impl-java8/src/main/java/io/opentracing/propagation/AbstractTracer.java:163-170 | starting a span straight from `buildSpan` gives the name, no parent and the clock reading, and makes only the trace-state copy, of an empty map |
| `Tracer.RegisterInjector` | opentracing-impl-java8/src/main/java/io/opentracing/propagation/AbstractTracer.java:53-55 | delegates to the registry: first-write-wins, previous injector returned, extractors untouched |
| `Tracer.RegisterExtractor` | opentracing-impl-java8/src/main/java/io/opentracing/propagation/AbstractTracer.java:57-59 | the same for extractors |
| `Tracer.Inject` | opentracing-impl-java8/src/main/java/io/opentracing/propagation/AbstractTracer.java:43-46 | fails exactly when the injector lookup for the carrier's runtime class fails, with the same error and no carrier written; when the lookup yields a built-in injector, the carrier is overridden by the stringified trace state and then, if that injector's flag is on, by the baggage; when it yields a foreign injector, the span is handed to that injector; the carrier keeps its class |
| `Tracer.Join` | opentracing-impl-java8/src/main/java/io/opentracing/propagation/AbstractTracer.java:48-51 | a carrier class with its own extractor dispatches to it, and any extractor used is a registered one |
| `Tracer.JoinFindsNearest` | opentracing-impl-java8/src/main/java/io/opentracing/propagation/AbstractTracer.java:84-100 | `join` succeeds exactly when some class on the carrier's superclass chain has an extractor, and then uses the nearest one's; otherwise it throws `NullPointerException` if the carrier class declares interfaces and the `AssertionError` if not |
| `Tracer.NewTracerRejectsEveryCarrier` | opentracing-impl-java8/src/main/java/io/opentracing/propagation/AbstractTracer.java:34-46 | with only the construction-time registration, injecting into any carrier object fails |
| `Tracer.UnregisteredCarrierFails` | opentracing-impl-java8/src/main/java/io/opentracing/propagation/AbstractTracer.java:43-46 | a carrier class with no registered class on its superclass chain makes `inject` fail |
| `Tracer.ConcreteRegistrationInjects` | opentracing-impl-java8/src/main/java/io/opentracing/propagation/AbstractTracer.java:43-46 | registering the built-in injector under the carrier's own class makes `inject` write the span into the carrier |
| `Tracer.HashMapCarrierExample` | opentracing-impl-java8/src/main/java/io/opentracing/propagation/AbstractTracer.java:76-80 | a `HashMap` carrier on a fresh tracer gets a `NullPointerException`, while the corrected lookup finds the built-in injector through `Map` |

## Left out

- Thread safety of the `ConcurrentHashMap` tables. The tables are plain immutable maps, and registration races are not modelled.
- Java reflection and class loading. `getClass`, `getSuperclass` and `getInterfaces` read a `ClassHierarchy` value.
- Null arguments other than the parent span: a null operation name, tag key, carrier type or codec. The JDK behaviour for these is not modelled.
- `Instant.now()`, the default start time. It is nondeterministic, so it is the parameter `now`.
- `Boolean.getBoolean`, read when the class loads. It is the parameter `dropBaggage`.
- `SpanImpl`'s constructor, `setTag`, `setBaggageItem` and field contents. Its source is not part of this model, so `start()` is described by the calls it makes.
- `toString()` of trace-state values. It is the parameter `show`.
- TextInjector.InjectSpan: a `null` trace-state value is not modelled. In Java its `toString()` throws `NullPointerException` after the earlier `put`s have landed, leaving a partly written carrier; trace-state values here are never null, so the model always writes the whole span.
- `Number` tag values are modelled as reals. NaN, infinities and the boxed number classes are not distinguished.
- `TextFormatInjectorImpl.inject`: the `instanceof` assertion, the unchecked casts and their `ClassCastException` paths. `(SpanImpl) span` throws for a span of another implementation, and the bridge method's cast to `Map` throws for a carrier that is not a `Map`. Every span here is a `SpanImpl` state and every carrier a string map, so `Tracer.Inject` and `Tracer.ConcreteRegistrationInjects` report a write where Java would throw for such arguments. `Tracer.Inject` calls `TextInjector.InjectSpan` directly, and foreign codecs only record which codec was chosen.
- TextInjector.SetBaggageEnabled: changing the flag of an instance that is already registered is not modelled. In Java the registered object is shared, so a later `inject` would see the new flag; here the injector is a value and the registry keeps its own copy. `AbstractTracer` keeps no other reference to the instance its constructor registers, and `setBaggageEnabled` is package-private: only code in the same package could change the flag, and none of it does.
- Extractors' `join` results. Extractors are code this model cannot see, so `Tracer.Join` returns the chosen extractor.
- `Timestamp.EpochPairExact`: it is stated only when `micros * 1000` fits a `long`. Outside that range `TimeUnit` saturates; the functions model this, but no lemma states it.

## Findings

| source | as written | input that shows it | evidently intended | confidence | as-written member | corrected member |
|---|---|---|---|---|---|---|
| opentracing-impl-java8/src/main/java/io/opentracing/propagation/AbstractTracer.java:76-80 | the interface loop tests `c`, which is null after the superclass loop, and never tests `iface`; `containsKey(null)` then throws `NullPointerException` (lines 94-98 repeat this for extractors) | a `java.util.HashMap` carrier on a fresh tracer: `HashMap`, `AbstractMap` and `Object` are unregistered, and `HashMap` declares `Map`, which is registered | return the codec of the first declared interface that is registered | high (not executed) | `Registry.LookupIgnoresInterfaces` | `Registry.LookupIntendedFindsInterface` |

`Registry.LookupIntended` is the corrected lookup. `Tracer.HashMapCarrierExample`
shows both halves on the `HashMap` input. `Tracer.Inject` keeps the lookup as
written, because it describes what the tracer does today. As a result,
`Tracer.NewTracerRejectsEveryCarrier` holds: the injector registered at
construction can never be reached through `inject`.
