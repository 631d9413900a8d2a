/** An abstract stand-in for the JVM class hierarchy that the registry walks
    with `getSuperclass()` and `getInterfaces()`. Classes are named by their
    fully qualified names; `rank` is a measure that strictly decreases from a
    class to its superclass, which is what makes every superclass walk finite. */
module Hierarchy {
  import opened Wrappers

  type ClassId = string

  datatype ClassHierarchy = ClassHierarchy(
    superOf: map<ClassId, ClassId>,         // direct superclass; absent means `getSuperclass()` is null
    rank: map<ClassId, nat>,                // termination measure for superclass walks
    interfacesOf: map<ClassId, seq<ClassId>>, // `getInterfaces()`; absent means the empty array
    isInterface: set<ClassId>               // classes that are interfaces
  )

  /** Every class with a superclass is ranked above that superclass. */
  predicate WellFormed(h: ClassHierarchy) {
    forall c :: c in h.superOf ==>
      c in h.rank && h.superOf[c] in h.rank && h.rank[h.superOf[c]] < h.rank[c]
  }

  /** The shape the JVM guarantees: an interface has no superclass, and a
      superclass is never an interface. */
  predicate InterfacesOutsideClassChains(h: ClassHierarchy) {
    && (forall c :: c in h.isInterface ==> c !in h.superOf)
    && (forall c :: c in h.superOf ==> h.superOf[c] !in h.isInterface)
  }

  /** Decreases from a class to its superclass in a well-formed hierarchy. */
  function Depth(h: ClassHierarchy, c: ClassId): nat {
    if c in h.rank then h.rank[c] + 1 else 0
  }

  /** `c.getSuperclass()`, with `None` for null. */
  function GetSuperclass(h: ClassHierarchy, c: ClassId): (r: Option<ClassId>)
    requires WellFormed(h)
    ensures r.Some? <==> c in h.superOf
    ensures r.Some? ==> Depth(h, r.value) < Depth(h, c)
  {
    if c in h.superOf then Some(h.superOf[c]) else None
  }

  /** `c.getInterfaces()`: the directly declared interfaces of `c`. */
  function GetInterfaces(h: ClassHierarchy, c: ClassId): seq<ClassId> {
    if c in h.interfacesOf then h.interfacesOf[c] else []
  }

  /** The superclass chain of `c`: `c` itself, then each successive
      superclass, ending at a class without one. */
  function Chain(h: ClassHierarchy, c: ClassId): (s: seq<ClassId>)
    requires WellFormed(h)
    decreases Depth(h, c)
    ensures |s| >= 1 && s[0] == c
    ensures forall i :: 0 <= i < |s| - 1 ==> s[i] in h.superOf && h.superOf[s[i]] == s[i + 1]
    ensures s[|s| - 1] !in h.superOf
  {
    if c in h.superOf then [c] + Chain(h, h.superOf[c]) else [c]
  }

  /** In a JVM-shaped hierarchy, the superclass chain of a class that is not
      an interface contains no interface at all. */
  lemma {:induction false} ChainAvoidsInterfaces(h: ClassHierarchy, c: ClassId)
    requires WellFormed(h) && InterfacesOutsideClassChains(h)
    requires c !in h.isInterface
    ensures forall i :: 0 <= i < |Chain(h, c)| ==> Chain(h, c)[i] !in h.isInterface
    decreases Depth(h, c)
  {
    if c in h.superOf {
      ChainAvoidsInterfaces(h, h.superOf[c]);
      assert Chain(h, c) == [c] + Chain(h, h.superOf[c]);
    }
  }
}
