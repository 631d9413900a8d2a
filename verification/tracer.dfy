/** `AbstractTracer`: owns one propagation registry, registers the built-in
    text-map injector for `java.util.Map` on construction, and delegates
    `inject`/`join` to whatever codec the registry resolves for the
    carrier's runtime class. Codecs other than the built-in one are code this
    model cannot see, so dispatching to them is recorded, not executed. */
module Tracer {
  import opened Wrappers
  import opened Hierarchy
  import Registry
  import opened Timestamp
  import opened Spans
  import opened SpanBuilder
  import opened TextInjector

  /** The class `Map.class` names. */
  const MapClass: ClassId := "java.util.Map"

  datatype Injector = TextFormat(codec: TextFormatInjector) | ForeignInjector(id: nat)
  datatype Extractor = ForeignExtractor(id: nat)

  datatype Tracer = Tracer(registry: Registry.PropagationRegistry<Injector, Extractor>)

  /** `new AbstractTracer()`: an empty registry, then the built-in injector
      registered for `Map.class`. */
  function NewTracer(dropBaggage: bool): (t: Tracer)
    ensures t.registry.injectors == map[MapClass := TextFormat(TextFormatInjector(!dropBaggage))]
    ensures t.registry.extractors == map[]
  {
    var (reg, _) := Registry.RegisterInjector(Registry.EmptyRegistry(), MapClass, TextFormat(NewTextFormatInjector(dropBaggage)));
    Tracer(reg)
  }

  /** `buildSpan(operationName)`; `now` is the builder's clock reading. */
  function BuildSpan(now: Instant, operationName: string): (b: SpanBuilder.Builder)
    ensures b.operationName == Some(operationName)
    ensures b.start == now && b.parent == None
    ensures |b.stringTags| == 0 && |b.booleanTags| == 0 && |b.numberTags| == 0
    ensures |b.traceState| == 0 && |b.baggage| == 0
  {
    WithOperationName(NewBuilder(now), operationName)
  }

  /** Starting a freshly built span copies an empty trace state and makes no
      other call: the span carries only its name, no parent and the clock
      reading. */
  lemma BuildSpanStartsBare(now: Instant, operationName: string, o: IterationOrder)
    requires OrderFits(o, BuildSpan(now, operationName))
    ensures var s := Start(BuildSpan(now, operationName), o);
      && s.operationName == Some(operationName) && s.parent == None && s.start == now
      && s.calls == [PutAllTraceState(map[])]
  {
    var b := BuildSpan(now, operationName);
    assert b.traceState == map[];
  }

  /** A carrier object: its runtime class and, for `Map` carriers, its
      string entries. */
  datatype Carrier = Carrier(cls: ClassId, entries: map<string, string>)

  /** What `inject` did with the carrier: the built-in injector rewrote its
      entries, or a foreign injector was handed the carrier. */
  datatype Injected = Written(carrier: Carrier) | HandedTo(injector: nat)

  /** `register(carrierType, injector)`. */
  function RegisterInjector(t: Tracer, carrierType: ClassId, injector: Injector): (r: (Tracer, Option<Injector>))
    ensures r.0.registry.extractors == t.registry.extractors
    ensures r.1.Some? <==> carrierType in t.registry.injectors
    ensures r.1.Some? ==> r.1.value == t.registry.injectors[carrierType]
    ensures r.0.registry.injectors.Keys == t.registry.injectors.Keys + {carrierType}
    ensures r.0.registry.injectors[carrierType] ==
      if carrierType in t.registry.injectors then t.registry.injectors[carrierType] else injector
    ensures forall x :: x in t.registry.injectors && x != carrierType ==>
      r.0.registry.injectors[x] == t.registry.injectors[x]
  {
    var (reg, previous) := Registry.RegisterInjector(t.registry, carrierType, injector);
    (Tracer(reg), previous)
  }

  /** `register(carrierType, extractor)`. */
  function RegisterExtractor(t: Tracer, carrierType: ClassId, extractor: Extractor): (r: (Tracer, Option<Extractor>))
    ensures r.0.registry.injectors == t.registry.injectors
    ensures r.1.Some? <==> carrierType in t.registry.extractors
    ensures r.1.Some? ==> r.1.value == t.registry.extractors[carrierType]
    ensures r.0.registry.extractors.Keys == t.registry.extractors.Keys + {carrierType}
    ensures r.0.registry.extractors[carrierType] ==
      if carrierType in t.registry.extractors then t.registry.extractors[carrierType] else extractor
    ensures forall x :: x in t.registry.extractors && x != carrierType ==>
      r.0.registry.extractors[x] == t.registry.extractors[x]
  {
    var (reg, previous) := Registry.RegisterExtractor(t.registry, carrierType, extractor);
    (Tracer(reg), previous)
  }

  /** `inject(span, carrier)`: resolve the injector for the carrier's runtime
      class and apply it. A failed lookup throws before the carrier is
      touched. */
  function Inject(t: Tracer, h: ClassHierarchy, span: SpanState, carrier: Carrier,
                  show: TraceValue -> string, o: InjectOrder): (r: Result<Injected, Registry.LookupError>)
    requires WellFormed(h)
    requires InjectOrderFits(o, span)
    ensures r.Failure? <==> Registry.GetInjector(h, t.registry, carrier.cls).Failure?
    ensures r.Failure? ==> r.error == Registry.GetInjector(h, t.registry, carrier.cls).error
    ensures var f := Registry.GetInjector(h, t.registry, carrier.cls);
      f.Success? && f.value.TextFormat? ==>
        r == Success(Written(carrier.(entries := carrier.entries + Stringified(span.traceState, show)
                                                  + WrittenBaggage(f.value.codec, span))))
    ensures var f := Registry.GetInjector(h, t.registry, carrier.cls);
      f.Success? && f.value.ForeignInjector? ==> r == Success(HandedTo(f.value.id))
    ensures r.Success? && r.value.Written? ==> r.value.carrier.cls == carrier.cls
  {
    var found: Result<Injector, Registry.LookupError> := Registry.GetInjector(h, t.registry, carrier.cls);
    match found
    case Failure(e) => Failure(e)
    case Success(TextFormat(codec)) =>
      Success(Written(carrier.(entries := InjectSpan(codec, span, carrier.entries, show, o))))
    case Success(ForeignInjector(id)) => Success(HandedTo(id))
  }

  /** `join(carrier)`: resolve the extractor for the carrier's runtime class;
      the builder it returns is foreign, so the model yields the extractor. */
  function Join(t: Tracer, h: ClassHierarchy, carrier: Carrier): (r: Result<Extractor, Registry.LookupError>)
    requires WellFormed(h)
    ensures carrier.cls in t.registry.extractors ==> r == Success(t.registry.extractors[carrier.cls])
    ensures r.Success? ==> Registry.HeldBy(t.registry.extractors, r.value)
  {
    Registry.GetExtractor(h, t.registry, carrier.cls)
  }

  /** `join` resolves the extractor of the nearest registered class on the
      carrier's superclass chain; with none registered it throws, a
      `NullPointerException` when the carrier class declares interfaces and
      the `AssertionError` otherwise. */
  lemma JoinFindsNearest(t: Tracer, h: ClassHierarchy, carrier: Carrier)
    requires WellFormed(h)
    ensures var r := Join(t, h, carrier);
      && (r.Failure? <==> !Registry.SomeRegistered(Chain(h, carrier.cls), t.registry.extractors))
      && (r.Success? ==> exists i :: Registry.NearestRegistered(Chain(h, carrier.cls), t.registry.extractors, i)
                                     && r.value == t.registry.extractors[Chain(h, carrier.cls)[i]])
      && (r.Failure? ==> r.error == if |GetInterfaces(h, carrier.cls)| > 0 then Registry.NullKey
                                    else Registry.NoCodecRegistered(carrier.cls))
  {
    Registry.LookupFindsNearest(h, t.registry.extractors, carrier.cls);
    if !Registry.SomeRegistered(Chain(h, carrier.cls), t.registry.extractors) {
      Registry.LookupIgnoresInterfaces(h, t.registry.extractors, carrier.cls);
    }
  }

  /** With only its built-in registration, a tracer cannot inject into any
      carrier object: a carrier's runtime class is never an interface, so
      its superclass chain never reaches `Map`, and the interface phase as
      written does not look at `Map` either. */
  lemma NewTracerRejectsEveryCarrier(dropBaggage: bool, h: ClassHierarchy, span: SpanState, carrier: Carrier,
                                     show: TraceValue -> string, o: InjectOrder)
    requires WellFormed(h) && InterfacesOutsideClassChains(h)
    requires MapClass in h.isInterface && carrier.cls !in h.isInterface
    requires InjectOrderFits(o, span)
    ensures Inject(NewTracer(dropBaggage), h, span, carrier, show, o).Failure?
  {
    var t := NewTracer(dropBaggage);
    ChainAvoidsInterfaces(h, carrier.cls);
    Registry.LookupIgnoresInterfaces(h, t.registry.injectors, carrier.cls);
  }

  /** A carrier type without any registered codec on its superclass chain
      makes `inject` throw; nothing is written. */
  lemma UnregisteredCarrierFails(t: Tracer, h: ClassHierarchy, span: SpanState, carrier: Carrier,
                                 show: TraceValue -> string, o: InjectOrder)
    requires WellFormed(h) && InjectOrderFits(o, span)
    requires !Registry.SomeRegistered(Chain(h, carrier.cls), t.registry.injectors)
    ensures Inject(t, h, span, carrier, show, o).Failure?
  {
    Registry.LookupIgnoresInterfaces(h, t.registry.injectors, carrier.cls);
  }

  /** Registering the built-in injector under a concrete map class (or one of
      its superclasses) makes injection through the tracer write the span
      into the carrier. */
  lemma ConcreteRegistrationInjects(t: Tracer, h: ClassHierarchy, span: SpanState, carrier: Carrier,
                                    show: TraceValue -> string, o: InjectOrder, codec: TextFormatInjector)
    requires WellFormed(h) && InjectOrderFits(o, span)
    requires carrier.cls !in t.registry.injectors
    ensures var (t2, previous) := RegisterInjector(t, carrier.cls, TextFormat(codec));
            && previous == None
            && Inject(t2, h, span, carrier, show, o)
               == Success(Written(carrier.(entries := InjectSpan(codec, span, carrier.entries, show, o))))
  {
  }

  /** A fragment of the JDK: `HashMap extends AbstractMap extends Object`,
      with `HashMap implements Map, Cloneable, Serializable` and
      `AbstractMap implements Map`. */
  function HashMapHierarchy(): (h: ClassHierarchy)
    ensures WellFormed(h) && InterfacesOutsideClassChains(h)
    ensures MapClass in h.isInterface && "java.util.HashMap" !in h.isInterface
  {
    ClassHierarchy(
      map["java.util.HashMap" := "java.util.AbstractMap", "java.util.AbstractMap" := "java.lang.Object"],
      map["java.util.HashMap" := 2, "java.util.AbstractMap" := 1, "java.lang.Object" := 0],
      map["java.util.HashMap" := [MapClass, "java.lang.Cloneable", "java.io.Serializable"],
          "java.util.AbstractMap" := [MapClass]],
      {MapClass, "java.lang.Cloneable", "java.io.Serializable"})
  }

  /** Injecting into a `HashMap` through a fresh tracer throws a
      `NullPointerException` from the interface phase, although `HashMap`
      implements `Map` and `Map` is registered; the corrected lookup finds
      the built-in injector. */
  lemma HashMapCarrierExample(dropBaggage: bool, span: SpanState, entries: map<string, string>,
                              show: TraceValue -> string, o: InjectOrder)
    requires InjectOrderFits(o, span)
    ensures Inject(NewTracer(dropBaggage), HashMapHierarchy(), span, Carrier("java.util.HashMap", entries), show, o)
            == Failure(Registry.NullKey)
    ensures Registry.LookupIntended(HashMapHierarchy(), NewTracer(dropBaggage).registry.injectors, "java.util.HashMap")
            == Success(TextFormat(TextFormatInjector(!dropBaggage)))
  {
  }
}
