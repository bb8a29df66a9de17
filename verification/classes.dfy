/** The class universe that reflection would expose: for every loadable class
    or interface, the annotations the loader reads and the edges it can
    follow. Class loading becomes a map lookup. */
module ClassModel {
  import opened Wrappers
  import opened ComponentDescriptors

  /** A fully-qualified Java class name. */
  type ClassName = string

  /** A declared field: its type's name, whether it carries `@Requirement`,
      and the value of `@RequirementHint` when present. */
  datatype FieldInfo = FieldInfo(
    fieldType: ClassName,
    requirement: bool,
    requirementHint: Option<string>)

  /** What introspection reveals about one class or interface. `interfaces` is
      what `getInterfaces()` returns (for an interface: its super-interfaces),
      in declaration order; `superclass` is never followed by the loader and
      is kept only so that this can be stated. */
  datatype ClassInfo = ClassInfo(
    superclass: Option<ClassName>,
    interfaces: seq<ClassName>,
    componentRole: bool,
    componentHint: Option<string>,
    instantiationStrategy: Option<InstantiationStrategy>,
    declaredFields: seq<FieldInfo>)

  /** Every class the class loader can load, by name. */
  type Universe = map<ClassName, ClassInfo>

  /** The universe is closed under interface edges and `rank` strictly
      decreases along them, so the interface graph is acyclic, as the Java
      language guarantees for interface hierarchies. */
  ghost predicate Ranked(u: Universe, rank: map<ClassName, nat>)
  {
    && u.Keys <= rank.Keys
    && forall c, i :: c in u && i in u[c].interfaces ==> i in u && rank[i] < rank[c]
  }

  /** Every name of `names` can be loaded. */
  predicate AllLoadable(u: Universe, names: seq<ClassName>)
  {
    forall n :: n in names ==> n in u
  }

  /** The number of leading names that load: loading stops at the first
      name that is not in the universe. */
  function LoadableCount(u: Universe, names: seq<ClassName>): (k: nat)
    ensures k <= |names|
    ensures forall j :: 0 <= j < k ==> names[j] in u
    ensures k < |names| ==> names[k] !in u
    ensures AllLoadable(u, names) <==> k == |names|
  {
    if names == [] || names[0] !in u then 0
    else
      var k := 1 + LoadableCount(u, names[1..]);
      assert forall j :: 0 < j < k ==> names[j] == names[1..][j - 1];
      k
  }
}
