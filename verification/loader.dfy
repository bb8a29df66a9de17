/** The bootstrap driver: read the component list, then for each listed
    class in order load it, resolve its roles and register one descriptor
    per role. Any failure stops the run and is reported as one fatal error;
    what was registered before the failure stays registered. */
module AnnotationLoader {
  import opened Wrappers
  import opened ComponentDescriptors
  import opened ClassModel
  import opened ManifestReader
  import opened RoleResolver
  import opened DescriptorBuilder
  import opened Sequences

  /** The message of the fatal error every failure is wrapped in. */
  const FailureMessage: string := "Failed to dynamically load components with annotations"

  /** Why the bootstrap stopped: the component list could not be read (the
      index of the first unreadable resource), a listed class could not be
      loaded, or the component manager refused a descriptor. */
  datatype LoadFailure =
    | ManifestUnreadable(resource: nat)
    | ClassNotFound(className: ClassName)
    | RegistrationRejected(descriptor: ComponentDescriptor)

  /** The bootstrap either completes or ends in one wrapped fatal error. */
  datatype Outcome = Completed | Fatal(message: string, cause: LoadFailure)

  /** The component manager's registration log after the bootstrap, and how
      the bootstrap ended. */
  datatype Bootstrap = Bootstrap(registered: seq<ComponentDescriptor>, outcome: Outcome)

  /** The progress of the registration loops: the log so far and the failure
      that stopped them, if any. */
  datatype Progress = Progress(log: seq<ComponentDescriptor>, failure: Option<LoadFailure>)

  /** The component manager's `registerComponent`: whether it accepts a
      descriptor, given the descriptors registered before it. */
  type Registrar = (seq<ComponentDescriptor>, ComponentDescriptor) -> bool

  /** Every descriptor of `log` from position `from` on was accepted by the
      manager when it was registered, after the descriptors before it. */
  ghost predicate AcceptedFrom(accepts: Registrar, log: seq<ComponentDescriptor>, from: nat)
  {
    forall k :: from <= k < |log| ==> accepts(log[..k], log[k])
  }

  /** One position of a log accepted from `from` on. */
  lemma AcceptedAt(accepts: Registrar, log: seq<ComponentDescriptor>, from: nat, k: nat)
    ensures AcceptedFrom(accepts, log, from) && from <= k < |log| ==> accepts(log[..k], log[k])
  {
  }

  /** Acceptance carries over to a longer log: if `log` was accepted from
      `from` on and `longer` extends it and was accepted after it, then
      `longer` was accepted from `from` on. */
  lemma AcceptedExtends(accepts: Registrar, log: seq<ComponentDescriptor>, longer: seq<ComponentDescriptor>, from: nat)
    requires log <= longer
    requires AcceptedFrom(accepts, log, from) && AcceptedFrom(accepts, longer, |log|)
    ensures AcceptedFrom(accepts, longer, from)
  {
    forall k | from <= k < |log|
      ensures accepts(longer[..k], longer[k])
    {
      assert longer[..k] == log[..k];
    }
  }

  /** One position below `k` of a plan whose first `k` entries are accepted. */
  lemma AcceptedBefore(accepts: Registrar, plan: seq<ComponentDescriptor>, k: nat, m: nat)
    ensures (forall j :: 0 <= j < k && j < |plan| ==> accepts(plan[..j], plan[j])) && m < k && m < |plan|
      ==> accepts(plan[..m], plan[m])
  {
  }

  /** The descriptors of class `c` for the roles `roles`, in order. */
  function DescriptorsFor(info: ClassInfo, c: ClassName, roles: seq<ClassName>): (ds: seq<ComponentDescriptor>)
    ensures |ds| == |roles|
    ensures forall k :: 0 <= k < |roles| ==> ds[k] == CreateComponentDescriptor(info, c, roles[k])
  {
    if roles == [] then []
    else [CreateComponentDescriptor(info, c, roles[0])] + DescriptorsFor(info, c, roles[1..])
  }

  /** Every descriptor the bootstrap would register for `names` if the
      manager accepted all of them: for each name in order, as long as it
      loads, one descriptor per role of the class, in role-list order. */
  function Registrations(u: Universe, ghost rank: map<ClassName, nat>, names: seq<ClassName>): seq<ComponentDescriptor>
    requires Ranked(u, rank)
  {
    if names == [] || names[0] !in u then []
    else
      DescriptorsFor(u[names[0]], names[0], FindComponentRoleClasses(u, rank, names[0]))
      + Registrations(u, rank, names[1..])
  }

  /** The total length of the role lists of `names`. */
  ghost function RoleTotal(u: Universe, rank: map<ClassName, nat>, names: seq<ClassName>): nat
    requires Ranked(u, rank) && AllLoadable(u, names)
  {
    if names == [] then 0
    else |FindComponentRoleClasses(u, rank, names[0])| + RoleTotal(u, rank, names[1..])
  }

  /** The inner loop: register the descriptor of `c` for each role in turn,
      stopping at the first one the manager refuses. */
  function RegisterRoles(u: Universe, c: ClassName, roles: seq<ClassName>, accepts: Registrar, log: seq<ComponentDescriptor>): (p: Progress)
    requires c in u
    ensures log <= p.log <= log + DescriptorsFor(u[c], c, roles)
    ensures p.failure.None? <==> p.log == log + DescriptorsFor(u[c], c, roles)
    ensures p.failure.Some? ==>
      && p.failure.value.RegistrationRejected?
      && !accepts(p.log, p.failure.value.descriptor)
      && p.log + [p.failure.value.descriptor] <= log + DescriptorsFor(u[c], c, roles)
    ensures AcceptedFrom(accepts, p.log, |log|)
    decreases |roles|
  {
    if roles == [] then Progress(log, None)
    else
      var d := CreateComponentDescriptor(u[c], c, roles[0]);
      var all := log + DescriptorsFor(u[c], c, roles);
      assert all == (log + [d]) + DescriptorsFor(u[c], c, roles[1..]);
      if !accepts(log, d) then Progress(log, Some(RegistrationRejected(d)))
      else
        var q := RegisterRoles(u, c, roles[1..], accepts, log + [d]);
        assert q.log[..|log|] == log && q.log[|log|] == d;
        q
  }

  /** The outer loop: load each listed class in turn and register its
      descriptors, stopping at the first failure. */
  function RegisterClasses(u: Universe, ghost rank: map<ClassName, nat>, names: seq<ClassName>, accepts: Registrar, log: seq<ComponentDescriptor>): (p: Progress)
    requires Ranked(u, rank)
    ensures log <= p.log <= log + Registrations(u, rank, names)
    ensures p.failure.None? <==> AllLoadable(u, names) && p.log == log + Registrations(u, rank, names)
    ensures p.failure.Some? && p.failure.value.ClassNotFound? ==>
      && p.log == log + Registrations(u, rank, names)
      && LoadableCount(u, names) < |names|
      && p.failure.value.className == names[LoadableCount(u, names)]
    ensures p.failure.Some? && p.failure.value.RegistrationRejected? ==>
      && !accepts(p.log, p.failure.value.descriptor)
      && p.log + [p.failure.value.descriptor] <= log + Registrations(u, rank, names)
    ensures p.failure.Some? ==> !p.failure.value.ManifestUnreadable?
    ensures AcceptedFrom(accepts, p.log, |log|)
    decreases |names|
  {
    if names == [] then Progress(log, None)
    else if names[0] !in u then Progress(log, Some(ClassNotFound(names[0])))
    else
      var c := names[0];
      var mine := DescriptorsFor(u[c], c, FindComponentRoleClasses(u, rank, c));
      var all := log + Registrations(u, rank, names);
      assert all == (log + mine) + Registrations(u, rank, names[1..]);
      var p := RegisterRoles(u, c, FindComponentRoleClasses(u, rank, c), accepts, log);
      if p.failure.Some? then p
      else
        assert AllLoadable(u, names) <==> AllLoadable(u, names[1..]) by {
          assert forall n :: n in names <==> n == c || n in names[1..];
        }
        var q := RegisterClasses(u, rank, names[1..], accepts, p.log);
        AcceptedExtends(accepts, p.log, q.log, |log|);
        q
  }

  /** Load and register every component listed in `resources`, as the
      loader's `initialize` does. The component list is read completely
      before anything is registered, so an unreadable list registers
      nothing; otherwise the log is always a prefix of the full plan of
      registrations, and the bootstrap completes exactly when every listed
      class loads and the whole plan is registered. Every failure surfaces
      as one fatal error carrying the same message and the original cause.
      Every registered descriptor was accepted by the manager. */
  function Initialize(u: Universe, ghost rank: map<ClassName, nat>, resources: seq<ManifestResource>, accepts: Registrar): (b: Bootstrap)
    requires Ranked(u, rank)
    ensures b.outcome.Fatal? ==> b.outcome.message == FailureMessage
    ensures AcceptedFrom(accepts, b.registered, 0)
    ensures !AllReadable(resources) ==>
      && b.registered == []
      && b.outcome == Fatal(FailureMessage, ManifestUnreadable(FindAnnotatedComponentClasses(resources).error))
    ensures AllReadable(resources) ==>
      var names := FindAnnotatedComponentClasses(resources).value;
      && b.registered <= Registrations(u, rank, names)
      && (b.outcome == Completed <==> AllLoadable(u, names) && b.registered == Registrations(u, rank, names))
      && (b.outcome.Fatal? ==> !b.outcome.cause.ManifestUnreadable?)
      && (b.outcome.Fatal? && b.outcome.cause.ClassNotFound? ==>
            && b.registered == Registrations(u, rank, names)
            && LoadableCount(u, names) < |names|
            && b.outcome.cause.className == names[LoadableCount(u, names)])
      && (b.outcome.Fatal? && b.outcome.cause.RegistrationRejected? ==>
            && !accepts(b.registered, b.outcome.cause.descriptor)
            && b.registered + [b.outcome.cause.descriptor] <= Registrations(u, rank, names))
  {
    match FindAnnotatedComponentClasses(resources)
    case Failure(j) => Bootstrap([], Fatal(FailureMessage, ManifestUnreadable(j)))
    case Success(names) =>
      var p := RegisterClasses(u, rank, names, accepts, []);
      match p.failure
      case None => Bootstrap(p.log, Completed)
      case Some(cause) => Bootstrap(p.log, Fatal(FailureMessage, cause))
  }

  /** With every listed class loadable, one descriptor is planned per entry
      of each class's role list: the sum of the role-list lengths. */
  lemma {:induction false} RegistrationCount(u: Universe, rank: map<ClassName, nat>, names: seq<ClassName>)
    requires Ranked(u, rank) && AllLoadable(u, names)
    ensures |Registrations(u, rank, names)| == RoleTotal(u, rank, names)
  {
    if names != [] {
      assert AllLoadable(u, names[1..]) by {
        forall n | n in names[1..] ensures n in u { assert n in names; }
      }
      RegistrationCount(u, rank, names[1..]);
    }
  }

  /** Registrations follow the component list: the plan for a list made of
      two parts is the plan for the first part followed by that for the
      second, provided every class of the first part loads. */
  lemma {:induction false} RegistrationsInListOrder(u: Universe, rank: map<ClassName, nat>, first: seq<ClassName>, second: seq<ClassName>)
    requires Ranked(u, rank) && AllLoadable(u, first)
    ensures Registrations(u, rank, first + second)
         == Registrations(u, rank, first) + Registrations(u, rank, second)
  {
    if first == [] {
      assert first + second == second;
    } else {
      assert (first + second)[0] == first[0];
      assert (first + second)[1..] == first[1..] + second;
      assert AllLoadable(u, first[1..]) by {
        forall n | n in first[1..] ensures n in u { assert n in first; }
      }
      RegistrationsInListOrder(u, rank, first[1..], second);
      var c := first[0];
      AppendAssociates(DescriptorsFor(u[c], c, FindComponentRoleClasses(u, rank, c)),
                       Registrations(u, rank, first[1..]), Registrations(u, rank, second));
    }
  }

  /** Every planned descriptor belongs to a listed, loadable class, names one
      of that class's roles, and is the descriptor built for that pair. */
  lemma {:induction false} RegistrationProvenance(u: Universe, rank: map<ClassName, nat>, names: seq<ClassName>, d: ComponentDescriptor)
    requires Ranked(u, rank)
    requires d in Registrations(u, rank, names)
    ensures d.implementation in names && d.implementation in u
    ensures d.role in FindComponentRoleClasses(u, rank, d.implementation)
    ensures d == CreateComponentDescriptor(u[d.implementation], d.implementation, d.role)
  {
    var c := names[0];
    var roles := FindComponentRoleClasses(u, rank, c);
    var mine := DescriptorsFor(u[c], c, roles);
    if d in mine {
      var k :| 0 <= k < |mine| && mine[k] == d;
      assert d.role == roles[k];
    } else {
      RegistrationProvenance(u, rank, names[1..], d);
    }
  }

  /** A class whose role list is empty gets no registration at all. */
  lemma NoRolesNoRegistration(u: Universe, rank: map<ClassName, nat>, names: seq<ClassName>, c: ClassName)
    requires Ranked(u, rank) && c in u
    requires FindComponentRoleClasses(u, rank, c) == []
    ensures forall d :: d in Registrations(u, rank, names) ==> d.implementation != c
  {
    forall d | d in Registrations(u, rank, names) ensures d.implementation != c {
      RegistrationProvenance(u, rank, names, d);
    }
  }

  /** The manager's refusals are the only source of `RegistrationRejected`:
      with a manager that accepts everything, the registration loops never
      report one. */
  lemma {:induction false} AcceptingManagerNeverRejects(u: Universe, rank: map<ClassName, nat>, names: seq<ClassName>, accepts: Registrar, log: seq<ComponentDescriptor>)
    requires Ranked(u, rank)
    requires forall l, d :: accepts(l, d)
    ensures RegisterClasses(u, rank, names, accepts, log).failure.None?
        <==> AllLoadable(u, names)
  {
  }

  /** End to end with a manager that accepts everything: when the component
      list is readable and every listed class loads, the bootstrap completes
      with exactly the planned registrations, one per (class, role) pair, in
      list order and then role order. */
  lemma AcceptingManagerRegistersEverything(u: Universe, rank: map<ClassName, nat>, resources: seq<ManifestResource>, accepts: Registrar)
    requires Ranked(u, rank)
    requires forall l, d :: accepts(l, d)
    requires AllReadable(resources)
    requires AllLoadable(u, FindAnnotatedComponentClasses(resources).value)
    ensures var names := FindAnnotatedComponentClasses(resources).value;
      && Initialize(u, rank, resources, accepts) == Bootstrap(Registrations(u, rank, names), Completed)
      && |Initialize(u, rank, resources, accepts).registered| == RoleTotal(u, rank, names)
  {
    var names := FindAnnotatedComponentClasses(resources).value;
    AcceptingManagerNeverRejects(u, rank, names, accepts, []);
    RegistrationCount(u, rank, names);
  }

  /** A refusal by the manager stops the bootstrap exactly there: when the
      component list is readable and the manager accepts the first `k`
      planned descriptors but refuses the next one, the bootstrap registers
      those `k` and fails with the refused descriptor as cause. */
  lemma FirstRefusalStopsBootstrap(u: Universe, rank: map<ClassName, nat>, resources: seq<ManifestResource>, accepts: Registrar, k: nat)
    requires Ranked(u, rank) && AllReadable(resources)
    requires k < |Registrations(u, rank, FindAnnotatedComponentClasses(resources).value)|
    requires var plan := Registrations(u, rank, FindAnnotatedComponentClasses(resources).value);
      && (forall j :: 0 <= j < k ==> accepts(plan[..j], plan[j]))
      && !accepts(plan[..k], plan[k])
    ensures var plan := Registrations(u, rank, FindAnnotatedComponentClasses(resources).value);
      Initialize(u, rank, resources, accepts)
      == Bootstrap(plan[..k], Fatal(FailureMessage, RegistrationRejected(plan[k])))
  {
    var names := FindAnnotatedComponentClasses(resources).value;
    var plan := Registrations(u, rank, names);
    var b := Initialize(u, rank, resources, accepts);
    var m := |b.registered|;
    PrefixAgrees(b.registered, plan, k);
    AcceptedAt(accepts, b.registered, 0, k);
    assert m <= k;
    assert b.outcome.Fatal? && b.outcome.cause.RegistrationRejected?;
    var d := b.outcome.cause.descriptor;
    PrefixAgrees(b.registered + [d], plan, m);
    assert (b.registered + [d])[..m] == b.registered;
    AcceptedBefore(accepts, plan, k, m);
    assert m == k;
  }

  /** Without a refusal the bootstrap completes: when the component list is
      readable, every listed class loads and the manager accepts each
      planned descriptor after the ones before it, the whole plan is
      registered. */
  lemma AcceptedPlanCompletes(u: Universe, rank: map<ClassName, nat>, resources: seq<ManifestResource>, accepts: Registrar)
    requires Ranked(u, rank) && AllReadable(resources)
    requires AllLoadable(u, FindAnnotatedComponentClasses(resources).value)
    requires AcceptedFrom(accepts, Registrations(u, rank, FindAnnotatedComponentClasses(resources).value), 0)
    ensures Initialize(u, rank, resources, accepts)
         == Bootstrap(Registrations(u, rank, FindAnnotatedComponentClasses(resources).value), Completed)
  {
    var plan := Registrations(u, rank, FindAnnotatedComponentClasses(resources).value);
    var b := Initialize(u, rank, resources, accepts);
    var m := |b.registered|;
    assert b.registered == plan[..m];
  }
}
