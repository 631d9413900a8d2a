/** `AbstractTracer.PropagationRegistry`: two independent tables keyed by
    carrier class, one of injectors and one of extractors, with first-write-wins
    registration and a lookup that walks the carrier's class hierarchy.
    Injector and extractor are type parameters: the registry never looks
    inside a codec. */
module Registry {
  import opened Wrappers
  import opened Hierarchy

  /** Why a lookup throws. `NoCodecRegistered` is the `AssertionError` at the
      end of the lookup; `NullKey` is the `NullPointerException` that
      `ConcurrentHashMap.containsKey(null)` throws. */
  datatype LookupError = NoCodecRegistered(carrierType: ClassId) | NullKey

  /** `v` is the codec stored for some carrier type in `table`. */
  ghost predicate HeldBy<V>(table: map<ClassId, V>, v: V) {
    exists k :: k in table && table[k] == v
  }

  datatype PropagationRegistry<I, E> = PropagationRegistry(injectors: map<ClassId, I>, extractors: map<ClassId, E>)

  /** A freshly constructed registry: both tables empty. */
  function EmptyRegistry<I, E>(): (r: PropagationRegistry<I, E>)
    ensures |r.injectors| == 0 && |r.extractors| == 0
  {
    PropagationRegistry(map[], map[])
  }

  /** `ConcurrentMap.putIfAbsent`: the new table and the value previously
      stored under `k`, if any. */
  function PutIfAbsent<V>(table: map<ClassId, V>, k: ClassId, v: V): (r: (map<ClassId, V>, Option<V>))
    ensures r.1.Some? <==> k in table
    ensures r.1.Some? ==> r.1.value == table[k]
    ensures r.0.Keys == table.Keys + {k}
    ensures k in table ==> r.0[k] == table[k]
    ensures k !in table ==> r.0[k] == v
    ensures forall x :: x in table && x != k ==> r.0[x] == table[x]
  {
    if k in table then (table, Some(table[k])) else (table[k := v], None)
  }

  /** `register(carrierType, injector)`. */
  function RegisterInjector<I, E>(reg: PropagationRegistry<I, E>, carrierType: ClassId, injector: I): (r: (PropagationRegistry<I, E>, Option<I>))
    ensures r.0.extractors == reg.extractors
    ensures r.1.Some? <==> carrierType in reg.injectors
    ensures r.1.Some? ==> r.1.value == reg.injectors[carrierType]
    ensures r.0.injectors.Keys == reg.injectors.Keys + {carrierType}
    ensures r.0.injectors[carrierType] == if carrierType in reg.injectors then reg.injectors[carrierType] else injector
    ensures forall x :: x in reg.injectors && x != carrierType ==> r.0.injectors[x] == reg.injectors[x]
  {
    var (table, previous) := PutIfAbsent(reg.injectors, carrierType, injector);
    (reg.(injectors := table), previous)
  }

  /** `register(carrierType, extractor)`. */
  function RegisterExtractor<I, E>(reg: PropagationRegistry<I, E>, carrierType: ClassId, extractor: E): (r: (PropagationRegistry<I, E>, Option<E>))
    ensures r.0.injectors == reg.injectors
    ensures r.1.Some? <==> carrierType in reg.extractors
    ensures r.1.Some? ==> r.1.value == reg.extractors[carrierType]
    ensures r.0.extractors.Keys == reg.extractors.Keys + {carrierType}
    ensures r.0.extractors[carrierType] == if carrierType in reg.extractors then reg.extractors[carrierType] else extractor
    ensures forall x :: x in reg.extractors && x != carrierType ==> r.0.extractors[x] == reg.extractors[x]
  {
    var (table, previous) := PutIfAbsent(reg.extractors, carrierType, extractor);
    (reg.(extractors := table), previous)
  }

  /** A second registration for the same carrier type returns the first
      codec and leaves the registry exactly as the first one left it. */
  lemma RegisterFirstWins<I, E>(reg: PropagationRegistry<I, E>, carrierType: ClassId, first: I, second: I)
    requires carrierType !in reg.injectors
    ensures var (r1, p1) := RegisterInjector(reg, carrierType, first);
            var (r2, p2) := RegisterInjector(r1, carrierType, second);
            && p1 == None && p2 == Some(first)
            && r2 == r1 && r2.injectors[carrierType] == first
  {
  }

  /** The same for extractors. */
  lemma RegisterExtractorFirstWins<I, E>(reg: PropagationRegistry<I, E>, carrierType: ClassId, first: E, second: E)
    requires carrierType !in reg.extractors
    ensures var (r1, p1) := RegisterExtractor(reg, carrierType, first);
            var (r2, p2) := RegisterExtractor(r1, carrierType, second);
            && p1 == None && p2 == Some(first)
            && r2 == r1 && r2.extractors[carrierType] == first
  {
  }

  /** How the superclass walk ended: with a codec, or with the loop variable
      `c` in whatever state made the `do`/`while` stop. */
  datatype Walk<V> = Found(codec: V) | Exhausted(c: Option<ClassId>)

  /** The `do`/`while` of `getInjector`/`getExtractor`: test `c`, move to its
      superclass, stop when that is null. */
  function SuperclassPhase<V>(h: ClassHierarchy, table: map<ClassId, V>, c: ClassId): (r: Walk<V>)
    requires WellFormed(h)
    decreases Depth(h, c)
    ensures c in table ==> r == Found(table[c])
    ensures r.Found? ==> HeldBy(table, r.codec)
    ensures r.Exhausted? ==> r.c == None
  {
    if c in table then Found(table[c])
    else match GetSuperclass(h, c)
      case None => Exhausted(None)
      case Some(s) => SuperclassPhase(h, table, s)
  }

  /** `table.containsKey(k)` on a `ConcurrentHashMap`, which rejects null. */
  function ContainsKey<V>(table: map<ClassId, V>, k: Option<ClassId>): (r: Result<bool, LookupError>)
    ensures r.Failure? <==> k.None?
    ensures r.Failure? ==> r.error == NullKey
    ensures r.Success? ==> (r.value <==> k.value in table)
  {
    match k
    case None => Failure(NullKey)
    case Some(x) => Success(x in table)
  }

  /** The `for (Class<?> iface : ...)` loop as written: each iteration tests
      the variable `c` left over from the superclass walk, never `iface`. */
  function InterfacePhase<V>(table: map<ClassId, V>, ifaces: seq<ClassId>, c: Option<ClassId>): (r: Result<Option<V>, LookupError>)
    decreases |ifaces|
    ensures |ifaces| == 0 ==> r == Success(None)
    ensures |ifaces| > 0 && c.None? ==> r == Failure(NullKey)
    ensures r.Success? && r.value.Some? ==> c.Some? && c.value in table && r.value.value == table[c.value]
  {
    if |ifaces| == 0 then Success(None)
    else match ContainsKey(table, c)
      case Failure(e) => Failure(e)
      case Success(found) =>
        if found then Success(Some(table[c.value])) else InterfacePhase(table, ifaces[1..], c)
  }

  /** `getInjector`/`getExtractor` over one table, as written. */
  function Lookup<V>(h: ClassHierarchy, table: map<ClassId, V>, carrierType: ClassId): (r: Result<V, LookupError>)
    requires WellFormed(h)
    ensures carrierType in table ==> r == Success(table[carrierType])
    ensures r.Success? ==> HeldBy(table, r.value)
  {
    match SuperclassPhase(h, table, carrierType)
    case Found(v) => Success(v)
    case Exhausted(c) =>
      match InterfacePhase(table, GetInterfaces(h, carrierType), c)
      case Failure(e) => Failure(e)
      case Success(Some(v)) => Success(v)
      case Success(None) => Failure(NoCodecRegistered(carrierType))
  }

  function GetInjector<I, E>(h: ClassHierarchy, reg: PropagationRegistry<I, E>, carrierType: ClassId): (r: Result<I, LookupError>)
    requires WellFormed(h)
    ensures carrierType in reg.injectors ==> r == Success(reg.injectors[carrierType])
    ensures r.Success? ==> HeldBy(reg.injectors, r.value)
  {
    Lookup(h, reg.injectors, carrierType)
  }

  function GetExtractor<I, E>(h: ClassHierarchy, reg: PropagationRegistry<I, E>, carrierType: ClassId): (r: Result<E, LookupError>)
    requires WellFormed(h)
    ensures carrierType in reg.extractors ==> r == Success(reg.extractors[carrierType])
    ensures r.Success? ==> HeldBy(reg.extractors, r.value)
  {
    Lookup(h, reg.extractors, carrierType)
  }

  /** Index `i` is the nearest registered class on `chain`. */
  ghost predicate NearestRegistered<V>(chain: seq<ClassId>, table: map<ClassId, V>, i: int) {
    && 0 <= i < |chain|
    && chain[i] in table
    && forall j :: 0 <= j < i ==> chain[j] !in table
  }

  /** Some class on `chain` is registered. */
  ghost predicate SomeRegistered<V>(chain: seq<ClassId>, table: map<ClassId, V>) {
    exists i :: 0 <= i < |chain| && chain[i] in table
  }

  /** The superclass walk finds a codec exactly when some class on the chain
      is registered, and then it is the codec of the nearest such class. */
  lemma {:induction false} SuperclassPhaseFindsNearest<V>(h: ClassHierarchy, table: map<ClassId, V>, c: ClassId)
    requires WellFormed(h)
    ensures SuperclassPhase(h, table, c).Found? <==> SomeRegistered(Chain(h, c), table)
    ensures SuperclassPhase(h, table, c).Found? ==>
      exists i :: NearestRegistered(Chain(h, c), table, i)
               && SuperclassPhase(h, table, c).codec == table[Chain(h, c)[i]]
    decreases Depth(h, c)
  {
    var chain := Chain(h, c);
    if c in table {
      assert NearestRegistered(chain, table, 0);
    } else if c in h.superOf {
      var s := h.superOf[c];
      SuperclassPhaseFindsNearest(h, table, s);
      var rest := Chain(h, s);
      assert chain == [c] + rest;
      if SomeRegistered(rest, table) {
        var i :| NearestRegistered(rest, table, i) && SuperclassPhase(h, table, s).codec == table[rest[i]];
        assert NearestRegistered(chain, table, i + 1);
      }
      if SomeRegistered(chain, table) {
        var i :| 0 <= i < |chain| && chain[i] in table;
        assert rest[i - 1] in table;
      }
    } else {
      assert chain == [c];
    }
  }

  /** Lookup finds a codec exactly when some class on the carrier type's
      superclass chain is registered, and returns the nearest one's codec. */
  lemma LookupFindsNearest<V>(h: ClassHierarchy, table: map<ClassId, V>, carrierType: ClassId)
    requires WellFormed(h)
    ensures Lookup(h, table, carrierType).Success? <==> SomeRegistered(Chain(h, carrierType), table)
    ensures Lookup(h, table, carrierType).Success? ==>
      exists i :: NearestRegistered(Chain(h, carrierType), table, i)
               && Lookup(h, table, carrierType).value == table[Chain(h, carrierType)[i]]
  {
    SuperclassPhaseFindsNearest(h, table, carrierType);
  }

  /** The interface phase as written never resolves anything: when no class
      on the superclass chain is registered, lookup throws whatever the
      carrier type's interfaces are registered with. It throws a
      `NullPointerException` when the carrier type declares any interface,
      and the `AssertionError` only when it declares none. */
  lemma LookupIgnoresInterfaces<V>(h: ClassHierarchy, table: map<ClassId, V>, carrierType: ClassId)
    requires WellFormed(h)
    requires !SomeRegistered(Chain(h, carrierType), table)
    ensures Lookup(h, table, carrierType).Failure?
    ensures Lookup(h, table, carrierType).error ==
      if |GetInterfaces(h, carrierType)| > 0 then NullKey else NoCodecRegistered(carrierType)
  {
    SuperclassPhaseFindsNearest(h, table, carrierType);
  }

  /** Lookup reads the table only along the superclass chain: two tables that
      agree there give the same answer, so registering an interface (which is
      never on a class's chain) cannot change any lookup. */
  lemma {:induction false} LookupReadsOnlyChain<V>(h: ClassHierarchy, t1: map<ClassId, V>, t2: map<ClassId, V>, carrierType: ClassId)
    requires WellFormed(h)
    requires forall i :: 0 <= i < |Chain(h, carrierType)| ==>
      var x := Chain(h, carrierType)[i];
      (x in t1 <==> x in t2) && (x in t1 ==> t1[x] == t2[x])
    ensures Lookup(h, t1, carrierType) == Lookup(h, t2, carrierType)
  {
    SuperclassPhaseFindsNearest(h, t1, carrierType);
    SuperclassPhaseFindsNearest(h, t2, carrierType);
    var chain := Chain(h, carrierType);
    if SomeRegistered(chain, t1) {
      var i1 :| NearestRegistered(chain, t1, i1) && Lookup(h, t1, carrierType).value == t1[chain[i1]];
      var i2 :| NearestRegistered(chain, t2, i2) && Lookup(h, t2, carrierType).value == t2[chain[i2]];
      assert chain[i1] in t2 && chain[i2] in t1;
    } else {
      assert !SomeRegistered(chain, t2);
    }
  }

  /** Registering a codec under an interface changes no lookup for a class
      that is not an interface: this is why the `Map` registration made at
      construction is never used. */
  lemma InterfaceRegistrationInvisible<I, E>(h: ClassHierarchy, reg: PropagationRegistry<I, E>, iface: ClassId,
                                             injector: I, carrierType: ClassId)
    requires WellFormed(h) && InterfacesOutsideClassChains(h)
    requires iface in h.isInterface && carrierType !in h.isInterface
    ensures GetInjector(h, RegisterInjector(reg, iface, injector).0, carrierType) == GetInjector(h, reg, carrierType)
  {
    ChainAvoidsInterfaces(h, carrierType);
    LookupReadsOnlyChain(h, RegisterInjector(reg, iface, injector).0.injectors, reg.injectors, carrierType);
  }

  /** The lookup the interface phase was evidently meant to perform: after
      the superclass walk, the first directly declared interface of the
      carrier type that is registered. */
  function LookupIntended<V>(h: ClassHierarchy, table: map<ClassId, V>, carrierType: ClassId): (r: Result<V, LookupError>)
    requires WellFormed(h)
    ensures carrierType in table ==> r == Success(table[carrierType])
    ensures r.Success? ==> HeldBy(table, r.value)
  {
    match SuperclassPhase(h, table, carrierType)
    case Found(v) => Success(v)
    case Exhausted(_) =>
      match FirstRegisteredInterface(table, GetInterfaces(h, carrierType))
      case Some(iface) => Success(table[iface])
      case None => Failure(NoCodecRegistered(carrierType))
  }

  /** The first element of `ifaces` that has an entry in `table`. */
  function FirstRegisteredInterface<V>(table: map<ClassId, V>, ifaces: seq<ClassId>): (r: Option<ClassId>)
    decreases |ifaces|
    ensures r.Some? <==> exists i :: 0 <= i < |ifaces| && ifaces[i] in table
    ensures r.Some? ==> exists i :: 0 <= i < |ifaces| && ifaces[i] == r.value && r.value in table
                                  && forall j :: 0 <= j < i ==> ifaces[j] !in table
  {
    if |ifaces| == 0 then None
    else if ifaces[0] in table then Some(ifaces[0])
    else
      var r := FirstRegisteredInterface(table, ifaces[1..]);
      assert forall i :: 1 <= i < |ifaces| ==> ifaces[i] == ifaces[1..][i - 1];
      r
  }

  /** The corrected lookup resolves an interface-only registration: with no
      registered class on the chain and a registered direct interface, it
      returns the codec of the first registered interface. */
  lemma LookupIntendedFindsInterface<V>(h: ClassHierarchy, table: map<ClassId, V>, carrierType: ClassId, k: nat)
    requires WellFormed(h)
    requires !SomeRegistered(Chain(h, carrierType), table)
    requires k < |GetInterfaces(h, carrierType)| && GetInterfaces(h, carrierType)[k] in table
    requires forall j :: 0 <= j < k ==> GetInterfaces(h, carrierType)[j] !in table
    ensures LookupIntended(h, table, carrierType) == Success(table[GetInterfaces(h, carrierType)[k]])
  {
    SuperclassPhaseFindsNearest(h, table, carrierType);
    var ifaces := GetInterfaces(h, carrierType);
    var r := FirstRegisteredInterface(table, ifaces);
    var i :| 0 <= i < |ifaces| && ifaces[i] == r.value && r.value in table
             && forall j :: 0 <= j < i ==> ifaces[j] !in table;
    assert ifaces[i] in table && ifaces[k] in table;
  }

  /** The corrected lookup still fails loudly when neither the chain nor any
      declared interface is registered. */
  lemma LookupIntendedFailsWhenNothingMatches<V>(h: ClassHierarchy, table: map<ClassId, V>, carrierType: ClassId)
    requires WellFormed(h)
    requires !SomeRegistered(Chain(h, carrierType), table)
    requires forall i :: 0 <= i < |GetInterfaces(h, carrierType)| ==> GetInterfaces(h, carrierType)[i] !in table
    ensures LookupIntended(h, table, carrierType) == Failure(NoCodecRegistered(carrierType))
  {
    SuperclassPhaseFindsNearest(h, table, carrierType);
  }

  /** Where some class on the chain is registered, the corrected lookup and
      the lookup as written agree. */
  lemma LookupIntendedAgrees<V>(h: ClassHierarchy, table: map<ClassId, V>, carrierType: ClassId)
    requires WellFormed(h)
    requires SomeRegistered(Chain(h, carrierType), table)
    ensures LookupIntended(h, table, carrierType) == Lookup(h, table, carrierType)
  {
    SuperclassPhaseFindsNearest(h, table, carrierType);
  }
}
