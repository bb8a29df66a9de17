/** The loader's observable behaviour on small class hierarchies of a given
    shape: diamonds, defaults, blank component-list lines and roles
    inherited only through a superclass. Each holds in every universe that
    contains such a hierarchy. */
module Scenarios {
  import opened Wrappers
  import opened ComponentDescriptors
  import opened ClassModel
  import opened ManifestReader
  import opened RoleResolver
  import opened DescriptorBuilder
  import opened AnnotationLoader

  /** `r` is a `@ComponentRole` interface with no super-interfaces. */
  predicate TopRole(u: Universe, r: ClassName)
  {
    r in u && u[r].interfaces == [] && u[r].componentRole
  }

  /** `x` is an unmarked interface whose only super-interface is `r`. */
  predicate UnmarkedAbove(u: Universe, x: ClassName, r: ClassName)
  {
    x in u && u[x].interfaces == [r] && !u[x].componentRole
  }

  /** The roles of an unmarked interface extending a top role. */
  lemma {:induction false} UnmarkedAboveRole(u: Universe, rank: map<ClassName, nat>, x: ClassName, r: ClassName)
    requires Ranked(u, rank) && TopRole(u, r) && UnmarkedAbove(u, x, r)
    ensures FindComponentRoleClasses(u, rank, x) == [r]
  {
    assert FindComponentRoleClasses(u, rank, r) == [];
    assert RolesAmong(u, rank, [r], rank[x]) == [] + [r] + RolesAmong(u, rank, [], rank[x]);
  }

  /** In a diamond, `impl` implementing `x` and `y`, both extending the role
      `r`, the role is found once per path: the role list is `[r, r]` and two
      identical descriptors are registered for `impl`. */
  lemma DiamondRegistersRoleTwice(u: Universe, rank: map<ClassName, nat>, impl: ClassName, x: ClassName, y: ClassName, r: ClassName)
    requires Ranked(u, rank)
    requires impl in u && u[impl].interfaces == [x, y]
    requires UnmarkedAbove(u, x, r) && UnmarkedAbove(u, y, r) && TopRole(u, r)
    ensures FindComponentRoleClasses(u, rank, impl) == [r, r]
    ensures var d := CreateComponentDescriptor(u[impl], impl, r);
      Registrations(u, rank, [impl]) == [d, d]
  {
    UnmarkedAboveRole(u, rank, x, r);
    UnmarkedAboveRole(u, rank, y, r);
    var bound := rank[impl];
    assert RolesAmong(u, rank, [y], bound) == [r] + [] + RolesAmong(u, rank, [], bound);
    assert [x, y][1..] == [y];
    assert RolesAmong(u, rank, [x, y], bound) == [r] + [] + RolesAmong(u, rank, [y], bound);
    var d := CreateComponentDescriptor(u[impl], impl, r);
    assert DescriptorsFor(u[impl], impl, [r, r]) == [d, d];
    assert Registrations(u, rank, [impl][1..]) == [];
  }

  /** `impl` implements only the role `roleX`, has the hint `hint`, no
      strategy annotation, and declares a `@Requirement` field of type
      `roleY` without hint followed by a field carrying only a hint. */
  predicate SingleComponent(u: Universe, impl: ClassName, roleX: ClassName, roleY: ClassName, hint: string)
  {
    && TopRole(u, roleX)
    && impl in u
    && u[impl].interfaces == [roleX]
    && u[impl].componentHint == Some(hint)
    && u[impl].instantiationStrategy == None
    && |u[impl].declaredFields| == 2
    && u[impl].declaredFields[0] == FieldInfo(roleY, true, None)
    && !u[impl].declaredFields[1].requirement
  }

  /** The descriptor expected for `SingleComponent`. */
  function ExpectedDescriptor(impl: ClassName, roleX: ClassName, roleY: ClassName, hint: string): ComponentDescriptor
  {
    ComponentDescriptor(roleX, impl, Some(hint), Singleton, [ComponentDependency(roleY, None)])
  }

  /** The descriptors planned for `SingleComponent`. */
  lemma {:induction false} SingleComponentPlan(u: Universe, rank: map<ClassName, nat>, impl: ClassName, roleX: ClassName, roleY: ClassName, hint: string)
    requires Ranked(u, rank) && SingleComponent(u, impl, roleX, roleY, hint)
    ensures FindComponentRoleClasses(u, rank, impl) == [roleX]
    ensures CreateComponentDescriptor(u[impl], impl, roleX) == ExpectedDescriptor(impl, roleX, roleY, hint)
    ensures DescriptorsFor(u[impl], impl, [roleX]) == [ExpectedDescriptor(impl, roleX, roleY, hint)]
  {
    assert FindComponentRoleClasses(u, rank, roleX) == [];
    assert RolesAmong(u, rank, [roleX], rank[impl]) == [] + [roleX] + RolesAmong(u, rank, [], rank[impl]);
    var fields := u[impl].declaredFields;
    assert fields[1..][1..] == [];
    assert Requirements(fields[1..]) == [];
    assert Requirements(fields) == [ComponentDependency(roleY, None)];
  }

  /** Listing `impl` once registers exactly one descriptor: role `roleX`,
      the class's hint, the default strategy `Singleton`, and one dependency
      on `roleY` with the default hint; the field carrying only a hint
      contributes nothing. */
  lemma SingleComponentEndToEnd(u: Universe, rank: map<ClassName, nat>, impl: ClassName, roleX: ClassName, roleY: ClassName, hint: string, accepts: Registrar)
    requires Ranked(u, rank) && SingleComponent(u, impl, roleX, roleY, hint)
    requires forall l, d :: accepts(l, d)
    ensures Initialize(u, rank, [Readable([impl])], accepts)
         == Bootstrap([ExpectedDescriptor(impl, roleX, roleY, hint)], Completed)
  {
    var resources := [Readable([impl])];
    assert FindAnnotatedComponentClasses(resources[1..]) == Success([]);
    assert FindAnnotatedComponentClasses(resources) == Success([impl] + []);
    SingleComponentPlan(u, rank, impl, roleX, roleY, hint);
    assert Registrations(u, rank, [impl][1..]) == [];
    AcceptingManagerRegistersEverything(u, rank, resources, accepts);
  }

  /** A blank line in the component list is kept and loaded as the class
      named "": when no such class exists the bootstrap fails, after
      registering the classes listed before the blank line. */
  lemma BlankLineFailsAfterEarlierRegistrations(u: Universe, rank: map<ClassName, nat>, impl: ClassName, roleX: ClassName, roleY: ClassName, hint: string, accepts: Registrar)
    requires Ranked(u, rank) && SingleComponent(u, impl, roleX, roleY, hint)
    requires "" !in u
    requires forall l, d :: accepts(l, d)
    ensures Initialize(u, rank, [Readable([impl, ""])], accepts)
         == Bootstrap([ExpectedDescriptor(impl, roleX, roleY, hint)], Fatal(FailureMessage, ClassNotFound("")))
  {
    var resources := [Readable([impl, ""])];
    var names := [impl, ""];
    assert FindAnnotatedComponentClasses(resources[1..]) == Success([]);
    assert FindAnnotatedComponentClasses(resources) == Success(names + []);
    SingleComponentPlan(u, rank, impl, roleX, roleY, hint);
    assert [roleX][1..] == [];
    var p := RegisterRoles(u, impl, [roleX], accepts, []);
    assert p == Progress([ExpectedDescriptor(impl, roleX, roleY, hint)], None);
    assert names[1..] == [""];
    assert RegisterClasses(u, rank, names, accepts, [])
        == RegisterClasses(u, rank, [""], accepts, p.log);
  }

  /** An unreadable second resource makes the bootstrap fail with nothing
      registered, whatever the first resource lists. */
  lemma UnreadableResourceRegistersNothing(u: Universe, rank: map<ClassName, nat>, lines: seq<string>, accepts: Registrar)
    requires Ranked(u, rank)
    ensures Initialize(u, rank, [Readable(lines), Unreadable], accepts)
         == Bootstrap([], Fatal(FailureMessage, ManifestUnreadable(1)))
  {
    var resources := [Readable(lines), Unreadable];
    assert resources[1..] == [Unreadable];
    assert FindAnnotatedComponentClasses(resources[1..]) == Failure(0);
  }

  /** `sub` extends the component class `impl` but declares no interface of
      its own: roles are not inherited through the superclass, so listing
      `sub` registers nothing even though `impl` has roles. */
  lemma SubclassInheritsNoRoles(u: Universe, rank: map<ClassName, nat>, sub: ClassName, impl: ClassName)
    requires Ranked(u, rank)
    requires sub in u && u[sub].superclass == Some(impl) && u[sub].interfaces == []
    ensures FindComponentRoleClasses(u, rank, sub) == []
    ensures Registrations(u, rank, [sub]) == []
  {
    assert Registrations(u, rank, [sub][1..]) == [];
  }
}
