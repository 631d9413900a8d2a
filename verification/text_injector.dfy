/** `TextFormatInjectorImpl`: the built-in injector for `Map` carriers. It
    puts every trace-state entry into the carrier, stringified, and then,
    when baggage propagation is enabled, every baggage entry. The carrier is
    a `Map<String, String>`, modelled as a Dafny map; `toString()` of a
    trace-state value is the parameter `show`. */
module TextInjector {
  import opened Spans

  /** `AbstractTracer.BAGGAGE_ENABLED`: true unless the system property
      `opentracing.propagation.dropBaggage` is set to true. */
  function BaggageEnabledDefault(dropBaggage: bool): bool {
    !dropBaggage
  }

  datatype TextFormatInjector = TextFormatInjector(baggageEnabled: bool)

  /** `new TextFormatInjectorImpl()`: the flag starts at the process default. */
  function NewTextFormatInjector(dropBaggage: bool): (inj: TextFormatInjector)
    ensures inj.baggageEnabled <==> !dropBaggage
  {
    TextFormatInjector(BaggageEnabledDefault(dropBaggage))
  }

  /** `setBaggageEnabled`. */
  function SetBaggageEnabled(inj: TextFormatInjector, enabled: bool): (r: TextFormatInjector)
    ensures r.baggageEnabled == enabled
  {
    inj.(baggageEnabled := enabled)
  }

  /** The iteration orders of the span's two maps during one injection. */
  datatype InjectOrder = InjectOrder(traceState: seq<string>, baggage: seq<string>)

  predicate InjectOrderFits(o: InjectOrder, span: SpanState) {
    Enumerates(o.traceState, span.traceState) && Enumerates(o.baggage, span.baggage)
  }

  /** One `for` loop of `carrier.put(key, value)` over `keys`, in order. */
  function PutEach(carrier: map<string, string>, keys: seq<string>, entries: map<string, string>): map<string, string>
    requires forall k :: k in keys ==> k in entries
    decreases |keys|
  {
    if |keys| == 0 then carrier
    else PutEach(carrier[keys[0] := entries[keys[0]]], keys[1..], entries)
  }

  /** The entries of `m` whose keys occur in `keys`. */
  function Visited(keys: seq<string>, entries: map<string, string>): (r: map<string, string>)
    requires forall k :: k in keys ==> k in entries
    ensures r.Keys == KeySet(keys)
    ensures forall k :: k in r ==> r[k] == entries[k]
  {
    map k | k in keys :: entries[k]
  }

  /** Putting entries one by one in any order is the same as overriding the
      carrier with the visited entries all at once. */
  lemma {:induction false} PutEachOverrides(carrier: map<string, string>, keys: seq<string>, entries: map<string, string>)
    requires forall k :: k in keys ==> k in entries
    ensures PutEach(carrier, keys, entries) == carrier + Visited(keys, entries)
    decreases |keys|
  {
    if |keys| > 0 {
      var k0 := keys[0];
      var rest := keys[1..];
      PutEachOverrides(carrier[k0 := entries[k0]], rest, entries);
      assert forall k :: k in keys <==> k == k0 || k in rest;
      assert carrier[k0 := entries[k0]] + Visited(rest, entries) == carrier + Visited(keys, entries);
    }
  }

  /** The trace state with every value replaced by its `toString()`. */
  function Stringified(traceState: map<string, TraceValue>, show: TraceValue -> string): (r: map<string, string>)
    ensures r.Keys == traceState.Keys
    ensures forall k :: k in r ==> r[k] == show(traceState[k])
  {
    map k | k in traceState :: show(traceState[k])
  }

  /** The baggage entries the injector writes: all of them when enabled,
      none otherwise. */
  function WrittenBaggage(inj: TextFormatInjector, span: SpanState): map<string, string> {
    if inj.baggageEnabled then span.baggage else map[]
  }

  /** The two loops of `injectSpan` override the carrier with the
      stringified trace state, then, when enabled, with the baggage. */
  lemma LoopsOverride(carrier: map<string, string>, o: InjectOrder, strings: map<string, string>,
                      baggage: map<string, string>, enabled: bool)
    requires Enumerates(o.traceState, strings) && Enumerates(o.baggage, baggage)
    ensures var afterState := PutEach(carrier, o.traceState, strings);
            (if enabled then PutEach(afterState, o.baggage, baggage) else afterState)
            == carrier + strings + (if enabled then baggage else map[])
  {
    var afterState := PutEach(carrier, o.traceState, strings);
    PutEachOverrides(carrier, o.traceState, strings);
    assert Visited(o.traceState, strings) == strings;
    PutEachOverrides(afterState, o.baggage, baggage);
    assert Visited(o.baggage, baggage) == baggage;
    assert afterState + map[] == afterState;
  }

  /** `injectSpan(span, carrier)`: the carrier after the two loops. */
  function InjectSpan(inj: TextFormatInjector, span: SpanState, carrier: map<string, string>,
                      show: TraceValue -> string, o: InjectOrder): (r: map<string, string>)
    requires InjectOrderFits(o, span)
    ensures r == carrier + Stringified(span.traceState, show) + WrittenBaggage(inj, span)
    ensures r.Keys == carrier.Keys + span.traceState.Keys + (if inj.baggageEnabled then span.baggage.Keys else {})
    ensures forall k :: k in span.traceState && !(inj.baggageEnabled && k in span.baggage) ==>
              r[k] == show(span.traceState[k])
    ensures inj.baggageEnabled ==> forall k :: k in span.baggage ==> r[k] == span.baggage[k]
    ensures forall k :: k in carrier && k !in span.traceState && !(inj.baggageEnabled && k in span.baggage) ==>
              r[k] == carrier[k]
  {
    var strings := Stringified(span.traceState, show);
    var afterState := PutEach(carrier, o.traceState, strings);
    LoopsOverride(carrier, o, strings, span.baggage, inj.baggageEnabled);
    if inj.baggageEnabled then PutEach(afterState, o.baggage, span.baggage) else afterState
  }

  /** The drop-baggage property decides what a fresh injector writes: with
      it set, no baggage key reaches the carrier; without it, every baggage
      entry does, with its value. */
  lemma DefaultFlagDecidesBaggage(dropBaggage: bool, span: SpanState, carrier: map<string, string>,
                                  show: TraceValue -> string, o: InjectOrder)
    requires InjectOrderFits(o, span)
    ensures dropBaggage ==>
      InjectSpan(NewTextFormatInjector(dropBaggage), span, carrier, show, o).Keys == carrier.Keys + span.traceState.Keys
    ensures !dropBaggage ==>
      InjectSpan(NewTextFormatInjector(dropBaggage), span, carrier, show, o) ==
        carrier + Stringified(span.traceState, show) + span.baggage
  {
  }

  /** After `setBaggageEnabled(enabled)` the injector writes the baggage
      exactly when `enabled` holds, whatever the flag was before. */
  lemma SetBaggageEnabledDecidesBaggage(inj: TextFormatInjector, enabled: bool, span: SpanState,
                                        carrier: map<string, string>, show: TraceValue -> string, o: InjectOrder)
    requires InjectOrderFits(o, span)
    ensures InjectSpan(SetBaggageEnabled(inj, enabled), span, carrier, show, o) ==
      carrier + Stringified(span.traceState, show) + (if enabled then span.baggage else map[])
  {
  }

  /** The carrier only grows: no key is lost, and a key outside the trace
      state and the written baggage keeps its value. */
  lemma InjectOnlyAdds(inj: TextFormatInjector, span: SpanState, carrier: map<string, string>,
                       show: TraceValue -> string, o: InjectOrder)
    requires InjectOrderFits(o, span)
    ensures carrier.Keys <= InjectSpan(inj, span, carrier, show, o).Keys
    ensures !inj.baggageEnabled ==>
      InjectSpan(inj, span, carrier, show, o).Keys - carrier.Keys <= span.traceState.Keys
  {
  }

  /** Injecting the same span twice leaves the carrier as injecting once. */
  lemma InjectIdempotent(inj: TextFormatInjector, span: SpanState, carrier: map<string, string>,
                                            show: TraceValue -> string, o: InjectOrder)
    requires InjectOrderFits(o, span)
    ensures var once := InjectSpan(inj, span, carrier, show, o);
            InjectSpan(inj, span, once, show, o) == once
  {
  }

  /** The result does not depend on the order in which either map is walked. */
  lemma InjectOrderIndependent(inj: TextFormatInjector, span: SpanState, carrier: map<string, string>,
                               show: TraceValue -> string, o1: InjectOrder, o2: InjectOrder)
    requires InjectOrderFits(o1, span) && InjectOrderFits(o2, span)
    ensures InjectSpan(inj, span, carrier, show, o1) == InjectSpan(inj, span, carrier, show, o2)
  {
  }

  /** The worked example: trace state `{trace-id: abc, span-id: 1}` and
      baggage `{user: 42}` injected into an empty carrier, with baggage on
      and then off. */
  lemma InjectExample(show: TraceValue -> string)
    requires show(TraceValue(0)) == "abc" && show(TraceValue(1)) == "1"
    ensures var span := SpanState(map["trace-id" := TraceValue(0), "span-id" := TraceValue(1)], map["user" := "42"]);
            var o := InjectOrder(["trace-id", "span-id"], ["user"]);
            && InjectSpan(TextFormatInjector(true), span, map[], show, o)
               == map["trace-id" := "abc", "span-id" := "1", "user" := "42"]
            && InjectSpan(TextFormatInjector(false), span, map[], show, o)
               == map["trace-id" := "abc", "span-id" := "1"]
  {
  }
}
