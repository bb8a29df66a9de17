# Annotation-driven component bootstrap — a Dafny model

This project models `ComponentAnnotationLoader`, the part of the XWiki component
framework that registers annotated components at start-up. The loader:

1. reads every `META-INF/components.txt` resource the class loader finds and
   collects their lines, in order, as class names;
2. loads each listed class and walks its interfaces depth first, collecting the
   interfaces marked `@ComponentRole`;
3. builds one component descriptor per (class, role) pair from the class's
   `@ComponentHint` and `@InstantiationStrategy` annotations and its
   `@Requirement` / `@RequirementHint` fields;
4. hands each descriptor to the component manager, and turns any failure into
   one fatal `RuntimeException`.

Reflection and class loading become plain data. A `Universe` maps each loadable
class name to a `ClassInfo`: its superclass, its interfaces in declaration
order, its role marker, its optional hint and strategy, and its declared
fields. A name that is not a key stands for a class that cannot be loaded. The
component list is a sequence of resources, each either its lines or
`Unreadable`. The component manager is a `Registrar`: a function that says
whether `registerComponent` accepts a descriptor, given the descriptors
registered before it.

Interface hierarchies are acyclic in Java. The model states this as
`ClassModel.Ranked(u, rank)`: every interface a class names is in the
universe, and a ghost `rank` strictly decreases along interface edges. This
is what makes the recursive walk terminate.

Files, one module each: `wrappers.dfy` (Option, Result), `descriptors.dfy`
(descriptor records), `classes.dfy` (the class universe), `manifest.dfy`,
`roles.dfy`, `builder.dfy`, `loader.dfy` (the four steps), `scenarios.dfy`
(small hierarchies of a given shape), `sequences.dfy` (regrouping concatenations).

Three behaviours of the code are easy to miss, and the model keeps them:

- Roles are not deduplicated. The resolver appends to a `List`, so a role
  reached along two interface paths is returned twice and registered twice
  (`RoleResolver.RoleMultiplicity`, `Scenarios.DiamondRegistersRoleTwice`).
- Every line of the component list is taken as a class name, blank lines
  included. A blank line is loaded as the class `""`, which fails the whole
  bootstrap (`ManifestReader.NoDeduplication`,
  `Scenarios.BlankLineFailsAfterEarlierRegistrations`).
- The whole component list is read before anything is registered, so an
  unreadable list registers nothing. A failure while loading classes or
  registering them leaves the earlier registrations in the manager
  (`AnnotationLoader.Initialize`, `AnnotationLoader.FirstRefusalStopsBootstrap`).

The plan of registrations, `AnnotationLoader.Registrations`, is a reference
definition with no contract of its own. Its content is stated by
`AnnotationLoader.RegistrationCount`, `AnnotationLoader.RegistrationsInListOrder`
and `AnnotationLoader.RegistrationProvenance`.

## Model

| member | source | states |
|---|---|---|
| `ManifestReader.FindAnnotatedComponentClasses` | xwiki-component/src/main/java/org/xwiki/component/annotation/ComponentAnnotationLoader.java:165-181 | Reading the list succeeds exactly when every located resource is readable, and then yields as many names as the resources have lines. Otherwise it fails at the first unreadable resource, and every resource before that one was readable. |
| `ManifestReader.LinePositions` | xwiki-component/src/main/java/org/xwiki/component/annotation/ComponentAnnotationLoader.java:169-177 | Line k of resource j is at position (lines of resources before j) + k of the result. With the length, this means the result is exactly the resources' lines laid end to end in enumeration order. |
| `ManifestReader.NoDeduplication` | xwiki-component/src/main/java/org/xwiki/component/annotation/ComponentAnnotationLoader.java:175-177 | Every line, including blank lines and repeats, occurs in the result exactly as often as in all resources together. Nothing is trimmed, skipped or deduplicated. |
| `ManifestReader.ConcatenatesInOrder` | xwiki-component/src/main/java/org/xwiki/component/annotation/ComponentAnnotationLoader.java:168-179 | Reading two groups of resources in turn gives the first group's names followed by the second group's. |
| `RoleResolver.FindComponentRoleClasses` | xwiki-component/src/main/java/org/xwiki/component/annotation/ComponentAnnotationLoader.java:140-155 | Every returned name is a loadable interface that carries `@ComponentRole` and lies strictly above the class in the interface hierarchy. So a class is never its own role. |
| `RoleResolver.RolesAmong` | xwiki-component/src/main/java/org/xwiki/component/annotation/ComponentAnnotationLoader.java:145-152 | The roles collected from a list of interfaces are marked interfaces strictly below the rank bound those interfaces respect. |
| `RoleResolver.RoleMultiplicity` | xwiki-component/src/main/java/org/xwiki/component/annotation/ComponentAnnotationLoader.java:142-153 | A marked interface occurs in the role list once per interface path leading to it, so twice in a diamond. Any other name never occurs. |
| `RoleResolver.RoleMultiplicityAmong` | xwiki-component/src/main/java/org/xwiki/component/annotation/ComponentAnnotationLoader.java:145-152 | The same multiplicity law for the roles collected from a list of interfaces. |
| `RoleResolver.RolesAreReachableMarkedInterfaces` | xwiki-component/src/main/java/org/xwiki/component/annotation/ComponentAnnotationLoader.java:140-155 | A name is in the role list of a class if and only if it is a `@ComponentRole` interface reachable from the class through interface edges. |
| `RoleResolver.NoReachableRoleMeansNoRoles` | xwiki-component/src/main/java/org/xwiki/component/annotation/ComponentAnnotationLoader.java:142-154 | The role list is empty if and only if no `@ComponentRole` interface is reachable. |
| `RoleResolver.RolesAmongAppend` | xwiki-component/src/main/java/org/xwiki/component/annotation/ComponentAnnotationLoader.java:145-152 | Interfaces are processed in declaration order. The roles of a concatenated interface list are the roles of each part, concatenated. |
| `RoleResolver.RoleOrdering` | xwiki-component/src/main/java/org/xwiki/component/annotation/ComponentAnnotationLoader.java:145-151 | Interface i, declared between `before` and `after`, contributes its roles after those of `before` and before those of `after`. Within that contribution, the roles found among i's super-interfaces come first and i itself, if marked, comes last. |
| `RoleResolver.RolesIgnoreAllButInterfaces` | xwiki-component/src/main/java/org/xwiki/component/annotation/ComponentAnnotationLoader.java:144-151 | Two universes with the same classes, interface lists and role markers give the same role lists. Superclasses, hints, strategies and fields have no influence. |
| `RoleResolver.SuperclassNeverFollowed` | xwiki-component/src/main/java/org/xwiki/component/annotation/ComponentAnnotationLoader.java:144-145 | Changing any class's superclass leaves every role list unchanged. |
| `DescriptorBuilder.DependencyOf` | xwiki-component/src/main/java/org/xwiki/component/annotation/ComponentAnnotationLoader.java:118-124 | A dependency takes the field's type as its role. It has a hint if and only if the field carries `@RequirementHint`, and then that hint's value. |
| `DescriptorBuilder.Requirements` | xwiki-component/src/main/java/org/xwiki/component/annotation/ComponentAnnotationLoader.java:115-128 | There are never more dependencies than fields. Each dependency comes from some field that carries `@Requirement`. |
| `DescriptorBuilder.RequirementsFollowFields` | xwiki-component/src/main/java/org/xwiki/component/annotation/ComponentAnnotationLoader.java:115-128 | The k-th dependency belongs to the k-th `@Requirement` field in declaration order. There is exactly one dependency per such field and none for any other field. |
| `DescriptorBuilder.RequirementsAppend` | xwiki-component/src/main/java/org/xwiki/component/annotation/ComponentAnnotationLoader.java:115-128 | Fields are scanned in declaration order. The dependencies of consecutive runs of fields are laid end to end. |
| `DescriptorBuilder.FieldWithoutRequirementIgnored` | xwiki-component/src/main/java/org/xwiki/component/annotation/ComponentAnnotationLoader.java:116-117 | Inserting a field without `@Requirement` anywhere, even one with `@RequirementHint`, leaves the dependency list unchanged. |
| `DescriptorBuilder.CreateComponentDescriptor` | xwiki-component/src/main/java/org/xwiki/component/annotation/ComponentAnnotationLoader.java:92-131 | The role and implementation are the names given. The hint is set if and only if the class has `@ComponentHint`, and then to its value. The strategy is the annotation's value when present and `Singleton` otherwise. The dependencies are those of the declared fields. |
| `DescriptorBuilder.DescriptorsDifferOnlyInRole` | xwiki-component/src/main/java/org/xwiki/component/annotation/ComponentAnnotationLoader.java:94-128 | Two descriptors built for the same class differ only in their role. |
| `AnnotationLoader.DescriptorsFor` | xwiki-component/src/main/java/org/xwiki/component/annotation/ComponentAnnotationLoader.java:72-73 | A class gets one descriptor per entry of its role list, in role-list order. The k-th is the descriptor built for the class and the k-th role. |
| `AnnotationLoader.RegisterRoles` | xwiki-component/src/main/java/org/xwiki/component/annotation/ComponentAnnotationLoader.java:72-75 | The log only grows, and stays a prefix of the class's descriptors. The loop succeeds if and only if all of them were registered. A refusal stops it at a descriptor that the manager refused and that would have come next. Every descriptor it added was accepted by the manager, given the ones registered before it. |
| `AnnotationLoader.RegisterClasses` | xwiki-component/src/main/java/org/xwiki/component/annotation/ComponentAnnotationLoader.java:68-76 | The log stays a prefix of the full plan. The loop succeeds if and only if every listed class loads and the whole plan is registered. A class-loading failure names the first unloadable class, after everything planned before it has been registered. A refusal names the next planned descriptor. Every descriptor it added was accepted by the manager, given the ones registered before it. |
| `AnnotationLoader.Initialize` | xwiki-component/src/main/java/org/xwiki/component/annotation/ComponentAnnotationLoader.java:58-83 | An unreadable component list registers nothing and fails with that cause. Otherwise the log is a prefix of the plan, and the bootstrap completes if and only if every listed class loads and the whole plan is registered. Every failure is one fatal error with the fixed message and its original cause, and earlier registrations stay. Every registered descriptor was accepted by the manager, given the ones registered before it. |
| `AnnotationLoader.RegistrationCount` | xwiki-component/src/main/java/org/xwiki/component/annotation/ComponentAnnotationLoader.java:68-75 | When every listed class loads, the number of planned registrations is the sum of the role-list lengths over the list. |
| `AnnotationLoader.RegistrationsInListOrder` | xwiki-component/src/main/java/org/xwiki/component/annotation/ComponentAnnotationLoader.java:68-76 | Registrations follow component-list order. The plan for a list in two parts is the plan for the first part, then the plan for the second, when the first part loads. |
| `AnnotationLoader.RegistrationProvenance` | xwiki-component/src/main/java/org/xwiki/component/annotation/ComponentAnnotationLoader.java:69-74 | Every planned descriptor belongs to a listed, loadable class. It names one of that class's roles and is the descriptor built for that pair. |
| `AnnotationLoader.NoRolesNoRegistration` | xwiki-component/src/main/java/org/xwiki/component/annotation/ComponentAnnotationLoader.java:72-75 | A class with an empty role list gets no registration at all. |
| `AnnotationLoader.AcceptingManagerNeverRejects` | xwiki-component/src/main/java/org/xwiki/component/annotation/ComponentAnnotationLoader.java:68-76 | If the manager accepts everything, the registration loops succeed if and only if every listed class loads. |
| `AnnotationLoader.AcceptingManagerRegistersEverything` | xwiki-component/src/main/java/org/xwiki/component/annotation/ComponentAnnotationLoader.java:58-83 | Suppose the list is readable, every listed class loads and the manager accepts everything. Then the bootstrap completes with exactly the planned registrations, as many as the sum of the role-list lengths. |
| `AnnotationLoader.FirstRefusalStopsBootstrap` | xwiki-component/src/main/java/org/xwiki/component/annotation/ComponentAnnotationLoader.java:58-83 | Suppose the list is readable and the manager accepts the first k planned descriptors but refuses the next. Then the bootstrap registers exactly those k and fails with the fixed message, naming the refused descriptor as cause. |
| `AnnotationLoader.AcceptedPlanCompletes` | xwiki-component/src/main/java/org/xwiki/component/annotation/ComponentAnnotationLoader.java:58-83 | Suppose the list is readable, every listed class loads, and the manager accepts each planned descriptor after the ones before it. Then the bootstrap completes with the whole plan registered. |
| `Scenarios.DiamondRegistersRoleTwice` | xwiki-component/src/main/java/org/xwiki/component/annotation/ComponentAnnotationLoader.java:142-153 | Take any class implementing unmarked interfaces x and y, each extending the same top-level role r. Its role list is [r, r], and two identical descriptors are planned for it. |
| `Scenarios.SingleComponentEndToEnd` | xwiki-component/src/main/java/org/xwiki/component/annotation/ComponentAnnotationLoader.java:58-131 | Take a class that implements one top-level role, has a hint, no strategy annotation, one `@Requirement` field without hint and one field with only a hint. Listing it once, with an accepting manager, completes with exactly one descriptor: that role, that hint, `Singleton`, and one dependency on the field's type with the default hint. |
| `Scenarios.BlankLineFailsAfterEarlierRegistrations` | xwiki-component/src/main/java/org/xwiki/component/annotation/ComponentAnnotationLoader.java:68-81 | Take the same class followed by a blank line, with no class named "". The class's descriptor is registered, and then the bootstrap fails because the class "" cannot be loaded. |
| `Scenarios.UnreadableResourceRegistersNothing` | xwiki-component/src/main/java/org/xwiki/component/annotation/ComponentAnnotationLoader.java:62-81 | A readable first resource followed by an unreadable one fails the bootstrap with nothing registered, whatever the first resource lists. |
| `Scenarios.SubclassInheritsNoRoles` | xwiki-component/src/main/java/org/xwiki/component/annotation/ComponentAnnotationLoader.java:144-145 | A class that declares no interface of its own has no roles and no planned registration, whatever its superclass implements. |

## Left out

- `AbstractXWikiRunnable` (the Lucene plugin's thread helper) is not part of this model. It sets up and tears down request context around a container lookup and has no logic of its own.
- Class loading, `ClassLoader.getResources`, URL streams and `readLine` line splitting are replaced by data: a universe of classes and resources already split into lines. An I/O failure part-way through a resource has the same outcome as an unreadable resource, because the exception discards the lines read so far.
- Reflection (`getAnnotation`, `getDeclaredFields`, `getDeclaredAnnotations`) is replaced by the `ClassInfo` record. The JVM does not specify the order of declared fields; the model takes the field sequence as given.
- The internals of `ComponentManager.registerComponent` and `DefaultComponentDescriptor` are not modelled. Registration is a decision by a `Registrar` function; the default hint is `None`.
- Only `Exception` is caught at line 78. A Java `Error`, such as a linkage error during class loading, escapes unwrapped. The model has no such errors: every interface a class names is assumed loadable (`Ranked`).
- The input stream is not closed when `readLine` throws (the close at line 178 is not in a `finally`). Resource handling is not modelled.
