/** The span-side values the builder and the injectors exchange. `SpanImpl`
    is not part of this model: a started span is described by its
    constructor arguments and the sequence of calls `start()` makes on it,
    and an injector sees only the two maps it reads. */
module Spans {
  import opened Wrappers
  import opened Timestamp

  /** An opaque trace-state value (a Java `Object`); only its identity matters. */
  datatype TraceValue = TraceValue(id: nat)

  /** A reference to another span, used as a parent; identity only. */
  datatype SpanRef = SpanRef(id: nat)

  /** The argument of one `setTag` overload: a `String`, a `boolean` or a
      `Number` (numbers are modelled as reals). */
  datatype TagValue = StrTag(s: string) | BoolTag(b: bool) | NumTag(n: real)

  /** A call `start()` makes on the span it has just constructed. */
  datatype SpanCall =
    | PutAllTraceState(entries: map<string, TraceValue>)
    | SetTag(key: string, value: TagValue)
    | SetBaggageItem(key: string, item: string)

  /** A started span: the arguments of the `SpanImpl` constructor and the
      calls made on it afterwards, in order. */
  datatype Span = Span(
    operationName: Option<string>,
    parent: Option<SpanRef>,
    start: Instant,
    calls: seq<SpanCall>)

  /** The two maps of a span that an injector reads. */
  datatype SpanState = SpanState(traceState: map<string, TraceValue>, baggage: map<string, string>)

  /** `keys` is one iteration order of the map `m`: every key exactly once.
      `HashMap` does not fix the order, so the model takes it as a parameter. */
  predicate Enumerates<V>(keys: seq<string>, m: map<string, V>) {
    && (forall i, j :: 0 <= i < j < |keys| ==> keys[i] != keys[j])
    && (forall k :: k in keys ==> k in m)
    && (forall k :: k in m ==> k in keys)
  }

  /** The keys of an iteration order, as a set. */
  function KeySet(keys: seq<string>): (r: set<string>)
    ensures forall k :: k in r <==> k in keys
  {
    set k | k in keys
  }

  /** An iteration order visits exactly `|m|` entries. */
  lemma {:induction false} EnumerationLength<V>(keys: seq<string>, m: map<string, V>)
    requires Enumerates(keys, m)
    ensures |keys| == |m|
  {
    DistinctKeySetSize(keys);
    assert KeySet(keys) == m.Keys;
  }

  lemma {:induction false} DistinctKeySetSize(keys: seq<string>)
    requires forall i, j :: 0 <= i < j < |keys| ==> keys[i] != keys[j]
    ensures |KeySet(keys)| == |keys|
  {
    if |keys| > 0 {
      var init := keys[..|keys| - 1];
      var last := keys[|keys| - 1];
      DistinctKeySetSize(init);
      assert last !in init;
      assert KeySet(keys) == KeySet(init) + {last};
    }
  }
}
