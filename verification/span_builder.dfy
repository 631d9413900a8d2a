/** `AbstractTracer.SpanBuilderImpl`: a record of the fields the `withX`
    calls update, and `start()`, which hands them to a new span. */
module SpanBuilder {
  import opened Wrappers
  import opened Timestamp
  import opened Spans

  datatype Builder = Builder(
    traceState: map<string, TraceValue>,
    baggage: map<string, string>,
    operationName: Option<string>,
    parent: Option<SpanRef>,
    start: Instant,
    stringTags: map<string, string>,
    booleanTags: map<string, bool>,
    numberTags: map<string, real>)

  /** `new SpanBuilderImpl()`. `now` is the reading of `Instant.now()` taken
      when the builder is created, not when the span starts. */
  function NewBuilder(now: Instant): (b: Builder)
    ensures b.start == now && b.operationName == None && b.parent == None
    ensures |b.traceState| == 0 && |b.baggage| == 0
    ensures |b.stringTags| == 0 && |b.booleanTags| == 0 && |b.numberTags| == 0
  {
    Builder(map[], map[], None, None, now, map[], map[], map[])
  }

  function WithOperationName(b: Builder, name: string): (r: Builder)
    ensures r.operationName == Some(name)
    ensures r.(operationName := b.operationName) == b
  {
    b.(operationName := Some(name))
  }

  /** `withParent(parent)`; a Java `null` is `None` and clears a parent set
      earlier, which `start()` then passes on as an empty `Optional`. */
  function WithParent(b: Builder, parent: Option<SpanRef>): (r: Builder)
    ensures r.parent == parent
    ensures r.(parent := b.parent) == b
  {
    b.(parent := parent)
  }

  /** The last `withParent` call decides the parent, and a `null` parent
      given last starts a span without one. */
  lemma ParentLastWriteWins(b: Builder, p1: Option<SpanRef>, p2: Option<SpanRef>, o: IterationOrder)
    requires OrderFits(o, b)
    ensures WithParent(WithParent(b, p1), p2) == WithParent(b, p2)
    ensures Start(WithParent(WithParent(b, p1), None), o).parent == None
  {
  }

  /** `withTag(String, String)`. */
  function WithStringTag(b: Builder, key: string, value: string): (r: Builder)
    ensures r.stringTags.Keys == b.stringTags.Keys + {key}
    ensures r.stringTags[key] == value
    ensures forall k :: k in b.stringTags && k != key ==> r.stringTags[k] == b.stringTags[k]
    ensures r.(stringTags := b.stringTags) == b
  {
    b.(stringTags := b.stringTags[key := value])
  }

  /** `withTag(String, boolean)`. */
  function WithBooleanTag(b: Builder, key: string, value: bool): (r: Builder)
    ensures r.booleanTags.Keys == b.booleanTags.Keys + {key}
    ensures r.booleanTags[key] == value
    ensures forall k :: k in b.booleanTags && k != key ==> r.booleanTags[k] == b.booleanTags[k]
    ensures r.(booleanTags := b.booleanTags) == b
  {
    b.(booleanTags := b.booleanTags[key := value])
  }

  /** `withTag(String, Number)`. */
  function WithNumberTag(b: Builder, key: string, value: real): (r: Builder)
    ensures r.numberTags.Keys == b.numberTags.Keys + {key}
    ensures r.numberTags[key] == value
    ensures forall k :: k in b.numberTags && k != key ==> r.numberTags[k] == b.numberTags[k]
    ensures r.(numberTags := b.numberTags) == b
  {
    b.(numberTags := b.numberTags[key := value])
  }

  /** For one key and one tag type, the last write wins: writing twice is
      the same as writing only the second value. */
  lemma TagLastWriteWins(b: Builder, key: string, v1: string, v2: string, f1: bool, f2: bool, n1: real, n2: real)
    ensures WithStringTag(WithStringTag(b, key, v1), key, v2) == WithStringTag(b, key, v2)
    ensures WithBooleanTag(WithBooleanTag(b, key, f1), key, f2) == WithBooleanTag(b, key, f2)
    ensures WithNumberTag(WithNumberTag(b, key, n1), key, n2) == WithNumberTag(b, key, n2)
  {
  }

  /** A string tag and a number tag under the same key live side by side:
      neither write disturbs the other map, whatever the order. */
  lemma TagTypesIndependent(b: Builder, key: string, s: string, n: real)
    ensures WithNumberTag(WithStringTag(b, key, s), key, n) == WithStringTag(WithNumberTag(b, key, n), key, s)
    ensures WithNumberTag(WithStringTag(b, key, s), key, n).stringTags[key] == s
    ensures WithNumberTag(WithStringTag(b, key, s), key, n).numberTags[key] == n
  {
  }

  /** `withStartTimestamp(micros)`: only the start instant changes, and it
      lies exactly `micros` microseconds after the epoch. */
  function WithStartTimestamp(b: Builder, micros: Long): (r: Builder)
    ensures r.(start := b.start) == b
    ensures NanosFitLong(micros) ==> r.start.epochSecond * NanosPerSecond + r.start.nano == micros * NanosPerMicro
    ensures NanosFitLong(micros) ==> EpochMicros(r.start) == micros
    ensures 0 <= r.start.nano < NanosPerSecond
  {
    var r := b.(start := StartInstant(micros));
    if NanosFitLong(micros) then StartInstantRoundTrip(micros); r else r
  }

  /** One `HashMap` iteration order for each of the maps `start()` walks. */
  datatype IterationOrder = IterationOrder(
    stringTags: seq<string>,
    booleanTags: seq<string>,
    numberTags: seq<string>,
    baggage: seq<string>)

  predicate OrderFits(o: IterationOrder, b: Builder) {
    && Enumerates(o.stringTags, b.stringTags)
    && Enumerates(o.booleanTags, b.booleanTags)
    && Enumerates(o.numberTags, b.numberTags)
    && Enumerates(o.baggage, b.baggage)
  }

  /** The position of a call in the fixed sequence `start()` follows. */
  function Phase(c: SpanCall): nat {
    match c
    case PutAllTraceState(_) => 0
    case SetTag(_, StrTag(_)) => 1
    case SetTag(_, BoolTag(_)) => 2
    case SetTag(_, NumTag(_)) => 3
    case SetBaggageItem(_, _) => 4
  }

  predicate PhaseOrdered(calls: seq<SpanCall>) {
    forall i, j :: 0 <= i < j < |calls| ==> Phase(calls[i]) <= Phase(calls[j])
  }

  predicate PhaseAtMost(calls: seq<SpanCall>, p: nat) {
    forall i :: 0 <= i < |calls| ==> Phase(calls[i]) <= p
  }

  predicate PhaseExactly(calls: seq<SpanCall>, p: nat) {
    forall i :: 0 <= i < |calls| ==> Phase(calls[i]) == p
  }

  /** Appending calls of one later phase keeps a call sequence ordered. */
  lemma AppendPhase(a: seq<SpanCall>, c: seq<SpanCall>, p: nat)
    requires PhaseOrdered(a) && PhaseAtMost(a, p) && PhaseExactly(c, p)
    ensures PhaseOrdered(a + c) && PhaseAtMost(a + c, p)
  {
  }

  /** The `setTag` calls of one `forEach` over a tag map, in iteration order. */
  function TagCalls(keys: seq<string>, tags: map<string, TagValue>): (r: seq<SpanCall>)
    requires forall k :: k in keys ==> k in tags
    ensures |r| == |keys|
    ensures forall i :: 0 <= i < |keys| ==> r[i] == SetTag(keys[i], tags[keys[i]])
  {
    seq(|keys|, i requires 0 <= i < |keys| => SetTag(keys[i], tags[keys[i]]))
  }

  /** The `setBaggageItem` calls of the `forEach` over the baggage. */
  function BaggageCalls(keys: seq<string>, baggage: map<string, string>): (r: seq<SpanCall>)
    requires forall k :: k in keys ==> k in baggage
    ensures |r| == |keys|
    ensures forall i :: 0 <= i < |keys| ==> r[i] == SetBaggageItem(keys[i], baggage[keys[i]])
  {
    seq(|keys|, i requires 0 <= i < |keys| => SetBaggageItem(keys[i], baggage[keys[i]]))
  }

  function StringTagValues(m: map<string, string>): map<string, TagValue> {
    map k | k in m :: StrTag(m[k])
  }

  function BooleanTagValues(m: map<string, bool>): map<string, TagValue> {
    map k | k in m :: BoolTag(m[k])
  }

  function NumberTagValues(m: map<string, real>): map<string, TagValue> {
    map k | k in m :: NumTag(m[k])
  }

  /** Everything `start()` does to the new span: copy the trace state, then
      run the four `forEach` loops in order. */
  function StartCalls(b: Builder, o: IterationOrder): seq<SpanCall>
    requires OrderFits(o, b)
  {
    [PutAllTraceState(b.traceState)]
      + TagCalls(o.stringTags, StringTagValues(b.stringTags))
      + TagCalls(o.booleanTags, BooleanTagValues(b.booleanTags))
      + TagCalls(o.numberTags, NumberTagValues(b.numberTags))
      + BaggageCalls(o.baggage, b.baggage)
  }

  lemma SegmentPhases(b: Builder, o: IterationOrder)
    requires OrderFits(o, b)
    ensures PhaseExactly(TagCalls(o.stringTags, StringTagValues(b.stringTags)), 1)
    ensures PhaseExactly(TagCalls(o.booleanTags, BooleanTagValues(b.booleanTags)), 2)
    ensures PhaseExactly(TagCalls(o.numberTags, NumberTagValues(b.numberTags)), 3)
    ensures PhaseExactly(BaggageCalls(o.baggage, b.baggage), 4)
  {
  }

  lemma StartCallsOrdered(b: Builder, o: IterationOrder)
    requires OrderFits(o, b)
    ensures PhaseOrdered(StartCalls(b, o))
    ensures |StartCalls(b, o)| == 1 + |b.stringTags| + |b.booleanTags| + |b.numberTags| + |b.baggage|
  {
    var ss := TagCalls(o.stringTags, StringTagValues(b.stringTags));
    var bs := TagCalls(o.booleanTags, BooleanTagValues(b.booleanTags));
    var ns := TagCalls(o.numberTags, NumberTagValues(b.numberTags));
    var gs := BaggageCalls(o.baggage, b.baggage);
    var head := [PutAllTraceState(b.traceState)];
    SegmentPhases(b, o);
    AppendPhase(head, ss, 1);
    AppendPhase(head + ss, bs, 2);
    AppendPhase(head + ss + bs, ns, 3);
    AppendPhase(head + ss + bs + ns, gs, 4);
    EnumerationLength(o.stringTags, b.stringTags);
    EnumerationLength(o.booleanTags, b.booleanTags);
    EnumerationLength(o.numberTags, b.numberTags);
    EnumerationLength(o.baggage, b.baggage);
  }

  lemma StartCallsHeadOnce(b: Builder, o: IterationOrder)
    requires OrderFits(o, b)
    ensures forall i :: 0 < i < |StartCalls(b, o)| ==> !StartCalls(b, o)[i].PutAllTraceState?
  {
  }

  lemma StartCallsStringTags(b: Builder, o: IterationOrder)
    requires OrderFits(o, b)
    ensures forall k, v :: SetTag(k, StrTag(v)) in StartCalls(b, o) <==> k in b.stringTags && b.stringTags[k] == v
  {
  }

  lemma StartCallsBooleanTags(b: Builder, o: IterationOrder)
    requires OrderFits(o, b)
    ensures forall k, v :: SetTag(k, BoolTag(v)) in StartCalls(b, o) <==> k in b.booleanTags && b.booleanTags[k] == v
  {
  }

  lemma StartCallsNumberTags(b: Builder, o: IterationOrder)
    requires OrderFits(o, b)
    ensures forall k, v :: SetTag(k, NumTag(v)) in StartCalls(b, o) <==> k in b.numberTags && b.numberTags[k] == v
  {
  }

  lemma StartCallsBaggage(b: Builder, o: IterationOrder)
    requires OrderFits(o, b)
    ensures forall k, v :: SetBaggageItem(k, v) in StartCalls(b, o) <==> k in b.baggage && b.baggage[k] == v
  {
  }

  lemma StartCallsContents(b: Builder, o: IterationOrder)
    requires OrderFits(o, b)
    ensures forall i :: 0 < i < |StartCalls(b, o)| ==> !StartCalls(b, o)[i].PutAllTraceState?
    ensures forall k, v :: SetTag(k, StrTag(v)) in StartCalls(b, o) <==> k in b.stringTags && b.stringTags[k] == v
    ensures forall k, v :: SetTag(k, BoolTag(v)) in StartCalls(b, o) <==> k in b.booleanTags && b.booleanTags[k] == v
    ensures forall k, v :: SetTag(k, NumTag(v)) in StartCalls(b, o) <==> k in b.numberTags && b.numberTags[k] == v
    ensures forall k, v :: SetBaggageItem(k, v) in StartCalls(b, o) <==> k in b.baggage && b.baggage[k] == v
  {
    StartCallsHeadOnce(b, o);
    StartCallsStringTags(b, o);
    StartCallsBooleanTags(b, o);
    StartCallsNumberTags(b, o);
    StartCallsBaggage(b, o);
  }

  /** `start()`: construct the span, copy the trace state into it, then set
      the string tags, the boolean tags, the number tags and the baggage
      items, each entry exactly once and in that fixed order of maps. */
  function Start(b: Builder, o: IterationOrder): (s: Span)
    requires OrderFits(o, b)
    ensures s.operationName == b.operationName && s.parent == b.parent && s.start == b.start
    ensures |s.calls| == 1 + |b.stringTags| + |b.booleanTags| + |b.numberTags| + |b.baggage|
    ensures s.calls[0] == PutAllTraceState(b.traceState)
    ensures PhaseOrdered(s.calls)
    ensures forall i :: 0 < i < |s.calls| ==> !s.calls[i].PutAllTraceState?
    ensures forall k, v :: SetTag(k, StrTag(v)) in s.calls <==> k in b.stringTags && b.stringTags[k] == v
    ensures forall k, v :: SetTag(k, BoolTag(v)) in s.calls <==> k in b.booleanTags && b.booleanTags[k] == v
    ensures forall k, v :: SetTag(k, NumTag(v)) in s.calls <==> k in b.numberTags && b.numberTags[k] == v
    ensures forall k, v :: SetBaggageItem(k, v) in s.calls <==> k in b.baggage && b.baggage[k] == v
  {
    StartCallsOrdered(b, o);
    StartCallsContents(b, o);
    Span(b.operationName, b.parent, b.start, StartCalls(b, o))
  }

  /** The value of the last `setTag` call for `key`, if any. */
  function LastTag(calls: seq<SpanCall>, key: string): (r: Option<TagValue>)
    ensures r.Some? ==> SetTag(key, r.value) in calls
    ensures r.None? ==> forall v :: SetTag(key, v) !in calls
  {
    if |calls| == 0 then None
    else
      var c := calls[|calls| - 1];
      var init := calls[..|calls| - 1];
      assert calls == init + [c];
      if c.SetTag? && c.key == key then Some(c.value) else LastTag(init, key)
  }

  /** Appending calls: the last tag for a key comes from the suffix when the
      suffix sets it, and from the prefix otherwise. */
  lemma {:induction false} LastTagAppend(a: seq<SpanCall>, b: seq<SpanCall>, key: string)
    ensures LastTag(a + b, key) == if LastTag(b, key).Some? then LastTag(b, key) else LastTag(a, key)
    decreases |b|
  {
    if |b| > 0 {
      var init := b[..|b| - 1];
      assert (a + b)[..|a + b| - 1] == a + init;
      LastTagAppend(a, init, key);
    } else {
      assert a + b == a;
    }
  }

  /** Over one tag map's calls, the last tag for a key is that map's value. */
  lemma LastTagOfTagCalls(keys: seq<string>, tags: map<string, TagValue>, key: string)
    requires forall k :: k in keys ==> k in tags
    ensures LastTag(TagCalls(keys, tags), key) == if key in keys then Some(tags[key]) else None
    decreases |keys|
  {
  }

  /** After `start()`, when one key carries tags of several types, the tag
      set last is the number tag, else the boolean tag, else the string tag:
      the fixed order of the three maps decides, not the order of the
      `withTag` calls. */
  lemma MergedTagPrecedence(b: Builder, o: IterationOrder, key: string)
    requires OrderFits(o, b)
    ensures LastTag(Start(b, o).calls, key) ==
      if key in b.numberTags then Some(NumTag(b.numberTags[key]))
      else if key in b.booleanTags then Some(BoolTag(b.booleanTags[key]))
      else if key in b.stringTags then Some(StrTag(b.stringTags[key]))
      else None
  {
    LastTagOfStartCalls(b, o, key);
  }

  lemma LastTagOfStartCalls(b: Builder, o: IterationOrder, key: string)
    requires OrderFits(o, b)
    ensures LastTag(StartCalls(b, o), key) ==
      if key in b.numberTags then Some(NumTag(b.numberTags[key]))
      else if key in b.booleanTags then Some(BoolTag(b.booleanTags[key]))
      else if key in b.stringTags then Some(StrTag(b.stringTags[key]))
      else None
  {
    var head := [PutAllTraceState(b.traceState)];
    assert LastTag(head, key) == None by {
      assert head[..0] == [];
    }
    NoTagsInBaggageCalls(o.baggage, b.baggage, key);
    LastTagOfTagCalls(o.stringTags, StringTagValues(b.stringTags), key);
    LastTagOfTagCalls(o.booleanTags, BooleanTagValues(b.booleanTags), key);
    LastTagOfTagCalls(o.numberTags, NumberTagValues(b.numberTags), key);
    CombineLastTags(head,
      TagCalls(o.stringTags, StringTagValues(b.stringTags)),
      TagCalls(o.booleanTags, BooleanTagValues(b.booleanTags)),
      TagCalls(o.numberTags, NumberTagValues(b.numberTags)),
      BaggageCalls(o.baggage, b.baggage), key);
  }

  lemma CombineLastTags(head: seq<SpanCall>, ss: seq<SpanCall>, bs: seq<SpanCall>, ns: seq<SpanCall>, gs: seq<SpanCall>, key: string)
    requires LastTag(head, key) == None && LastTag(gs, key) == None
    ensures LastTag(head + ss + bs + ns + gs, key) ==
      if LastTag(ns, key).Some? then LastTag(ns, key)
      else if LastTag(bs, key).Some? then LastTag(bs, key)
      else LastTag(ss, key)
  {
    LastTagAppend(head + ss + bs + ns, gs, key);
    LastTagAppend(head + ss + bs, ns, key);
    LastTagAppend(head + ss, bs, key);
    LastTagAppend(head, ss, key);
  }

  lemma NoTagsInBaggageCalls(keys: seq<string>, baggage: map<string, string>, key: string)
    requires forall k :: k in keys ==> k in baggage
    ensures LastTag(BaggageCalls(keys, baggage), key) == None
  {
  }
}
