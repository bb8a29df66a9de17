/** Role resolution: the `@ComponentRole` interfaces a class implements,
    found by walking `getInterfaces()` depth first. Superclasses are never
    followed, and the result is a list, not a set. */
module RoleResolver {
  import opened Wrappers
  import opened ClassModel
  import opened Sequences

  /** Whether `x` is an interface of `c`, directly or through a chain of
      super-interfaces. */
  ghost predicate Reaches(u: Universe, rank: map<ClassName, nat>, c: ClassName, x: ClassName)
    requires Ranked(u, rank) && c in u
    decreases rank[c]
  {
    exists i :: i in u[c].interfaces && (i == x || Reaches(u, rank, i, x))
  }

  /** The number of distinct interface-edge paths from `c` to `x`. */
  ghost function PathCount(u: Universe, rank: map<ClassName, nat>, c: ClassName, x: ClassName): nat
    requires Ranked(u, rank) && c in u
    decreases rank[c], 1, 0
  {
    PathsAmong(u, rank, u[c].interfaces, x, rank[c])
  }

  /** The number of paths to `x` that start with one of the edges to `ifs`. */
  ghost function PathsAmong(u: Universe, rank: map<ClassName, nat>, ifs: seq<ClassName>, x: ClassName, bound: nat): nat
    requires Ranked(u, rank)
    requires forall i :: i in ifs ==> i in u && rank[i] < bound
    decreases bound, 0, |ifs|
  {
    if ifs == [] then 0
    else
      (if ifs[0] == x then 1 else 0) + PathCount(u, rank, ifs[0], x)
      + PathsAmong(u, rank, ifs[1..], x, bound)
  }

  /** The role interfaces of `c`: for each directly implemented interface in
      declaration order, the roles of its super-interfaces, then the
      interface itself when it carries `@ComponentRole`. Every element is a
      marked interface strictly above `c`, so a class is never its own role. */
  function FindComponentRoleClasses(u: Universe, ghost rank: map<ClassName, nat>, c: ClassName): (roles: seq<ClassName>)
    requires Ranked(u, rank) && c in u
    ensures forall r :: r in roles ==> r in u && u[r].componentRole && rank[r] < rank[c]
    decreases rank[c], 1, 0
  {
    RolesAmong(u, rank, u[c].interfaces, rank[c])
  }

  /** The roles contributed by the interfaces `ifs`, in order. */
  function RolesAmong(u: Universe, ghost rank: map<ClassName, nat>, ifs: seq<ClassName>, ghost bound: nat): (roles: seq<ClassName>)
    requires Ranked(u, rank)
    requires forall i :: i in ifs ==> i in u && rank[i] < bound
    ensures forall r :: r in roles ==> r in u && u[r].componentRole && rank[r] < bound
    decreases bound, 0, |ifs|
  {
    if ifs == [] then []
    else
      var i := ifs[0];
      FindComponentRoleClasses(u, rank, i) + (if u[i].componentRole then [i] else [])
      + RolesAmong(u, rank, ifs[1..], bound)
  }

  /** A marked interface occurs in the role list once per interface path
      leading to it (so twice in a diamond); anything else never occurs. */
  lemma {:induction false} RoleMultiplicity(u: Universe, rank: map<ClassName, nat>, c: ClassName, x: ClassName)
    requires Ranked(u, rank) && c in u
    ensures multiset(FindComponentRoleClasses(u, rank, c))[x]
         == if x in u && u[x].componentRole then PathCount(u, rank, c, x) else 0
    decreases rank[c], 1, 0
  {
    RoleMultiplicityAmong(u, rank, u[c].interfaces, x, rank[c]);
  }

  lemma {:induction false} RoleMultiplicityAmong(u: Universe, rank: map<ClassName, nat>, ifs: seq<ClassName>, x: ClassName, bound: nat)
    requires Ranked(u, rank)
    requires forall i :: i in ifs ==> i in u && rank[i] < bound
    ensures multiset(RolesAmong(u, rank, ifs, bound))[x]
         == if x in u && u[x].componentRole then PathsAmong(u, rank, ifs, x, bound) else 0
    decreases bound, 0, |ifs|
  {
    if ifs != [] {
      var i := ifs[0];
      RoleMultiplicity(u, rank, i, x);
      RoleMultiplicityAmong(u, rank, ifs[1..], x, bound);
      var own := if u[i].componentRole then [i] else [];
      assert RolesAmong(u, rank, ifs, bound)
          == FindComponentRoleClasses(u, rank, i) + own + RolesAmong(u, rank, ifs[1..], bound);
      assert multiset(own)[x] == if i == x && u[i].componentRole then 1 else 0;
    }
  }

  /** Some path leads from `c` to `x` exactly when `x` is reachable. */
  lemma {:induction false} PathCountPositive(u: Universe, rank: map<ClassName, nat>, c: ClassName, x: ClassName)
    requires Ranked(u, rank) && c in u
    ensures PathCount(u, rank, c, x) > 0 <==> Reaches(u, rank, c, x)
    decreases rank[c], 1, 0
  {
    PathsAmongPositive(u, rank, u[c].interfaces, x, rank[c]);
  }

  lemma {:induction false} PathsAmongPositive(u: Universe, rank: map<ClassName, nat>, ifs: seq<ClassName>, x: ClassName, bound: nat)
    requires Ranked(u, rank)
    requires forall i :: i in ifs ==> i in u && rank[i] < bound
    ensures PathsAmong(u, rank, ifs, x, bound) > 0
        <==> exists i :: i in ifs && (i == x || Reaches(u, rank, i, x))
    decreases bound, 0, |ifs|
  {
    if ifs != [] {
      var i := ifs[0];
      PathCountPositive(u, rank, i, x);
      PathsAmongPositive(u, rank, ifs[1..], x, bound);
      if PathsAmong(u, rank, ifs[1..], x, bound) > 0 {
        var j :| j in ifs[1..] && (j == x || Reaches(u, rank, j, x));
        assert j in ifs;
      }
      if exists j :: j in ifs && (j == x || Reaches(u, rank, j, x)) {
        var j :| j in ifs && (j == x || Reaches(u, rank, j, x));
        if j != i { assert j in ifs[1..]; }
      }
    }
  }

  /** Soundness and completeness: `x` is in the role list of `c` if and only
      if `x` is a `@ComponentRole` interface reachable from `c` through
      interface edges. */
  lemma RolesAreReachableMarkedInterfaces(u: Universe, rank: map<ClassName, nat>, c: ClassName, x: ClassName)
    requires Ranked(u, rank) && c in u
    ensures x in FindComponentRoleClasses(u, rank, c)
        <==> x in u && u[x].componentRole && Reaches(u, rank, c, x)
  {
    RoleMultiplicity(u, rank, c, x);
    PathCountPositive(u, rank, c, x);
    if Reaches(u, rank, c, x) { ReachesOnlyLoadable(u, rank, c, x); }
  }

  /** Interface edges never leave the universe. */
  lemma {:induction false} ReachesOnlyLoadable(u: Universe, rank: map<ClassName, nat>, c: ClassName, x: ClassName)
    requires Ranked(u, rank) && c in u
    requires Reaches(u, rank, c, x)
    ensures x in u
    decreases rank[c]
  {
    var i :| i in u[c].interfaces && (i == x || Reaches(u, rank, i, x));
    if i != x { ReachesOnlyLoadable(u, rank, i, x); }
  }

  /** A class reaching no `@ComponentRole` interface has an empty role list,
      and only such a class has one. */
  lemma NoReachableRoleMeansNoRoles(u: Universe, rank: map<ClassName, nat>, c: ClassName)
    requires Ranked(u, rank) && c in u
    ensures FindComponentRoleClasses(u, rank, c) == []
        <==> forall x :: x in u && u[x].componentRole ==> !Reaches(u, rank, c, x)
  {
    var roles := FindComponentRoleClasses(u, rank, c);
    if roles != [] {
      RolesAreReachableMarkedInterfaces(u, rank, c, roles[0]);
    }
    forall x | x in u && u[x].componentRole && Reaches(u, rank, c, x)
      ensures roles != []
    {
      RolesAreReachableMarkedInterfaces(u, rank, c, x);
    }
  }

  /** Interfaces are processed in declaration order: the roles of a
      concatenation of interface lists are the roles of each, concatenated. */
  lemma {:induction false} RolesAmongAppend(u: Universe, rank: map<ClassName, nat>, a: seq<ClassName>, b: seq<ClassName>, bound: nat)
    requires Ranked(u, rank)
    requires forall i :: i in a + b ==> i in u && rank[i] < bound
    ensures RolesAmong(u, rank, a + b, bound) == RolesAmong(u, rank, a, bound) + RolesAmong(u, rank, b, bound)
  {
    if a == [] {
      assert a + b == b;
    } else {
      assert (a + b)[0] == a[0];
      assert (a + b)[1..] == a[1..] + b;
      assert forall x :: x in a[1..] + b ==> x in a + b;
      RolesAmongAppend(u, rank, a[1..], b, bound);
      var i := a[0];
      AppendAssociates(FindComponentRoleClasses(u, rank, i) + (if u[i].componentRole then [i] else []),
                       RolesAmong(u, rank, a[1..], bound), RolesAmong(u, rank, b, bound));
    }
  }

  /** The roles of `before + [i] + after`: those of `before`, then the roles
      of `i`'s super-interfaces, then `i` itself if marked, then those of
      `after`. */
  lemma RolesAmongSplit(u: Universe, rank: map<ClassName, nat>,
                       before: seq<ClassName>, i: ClassName, after: seq<ClassName>, bound: nat)
    requires Ranked(u, rank)
    requires forall x :: x in before ==> x in u && rank[x] < bound
    requires i in u && rank[i] < bound
    requires forall x :: x in after ==> x in u && rank[x] < bound
    ensures RolesAmong(u, rank, before + [i] + after, bound)
      == RolesAmong(u, rank, before, bound)
       + FindComponentRoleClasses(u, rank, i) + (if u[i].componentRole then [i] else [])
       + RolesAmong(u, rank, after, bound)
  {
    var rest := [i] + after;
    assert forall x :: x in rest ==> x in u && rank[x] < bound;
    assert forall x :: x in before + rest ==> x in u && rank[x] < bound;
    assert before + [i] + after == before + rest;
    var whole := RolesAmong(u, rank, before + rest, bound);
    RolesAmongAppend(u, rank, before, rest, bound);
    RolesAmongCons(u, rank, i, after, bound);
    var A, B := RolesAmong(u, rank, before, bound), FindComponentRoleClasses(u, rank, i);
    var C, D := (if u[i].componentRole then [i] else []), RolesAmong(u, rank, after, bound);
    assert whole == A + (B + C + D);
    AppendAssociates4(A, B, C, D);
  }


  /** An interface declared between `before` and `after` contributes its
      roles right after those of `before` and right before those of `after`,
      and inside that contribution the roles found among its
      super-interfaces come before the interface itself. */
  lemma RoleOrdering(u: Universe, rank: map<ClassName, nat>, c: ClassName,
                     before: seq<ClassName>, i: ClassName, after: seq<ClassName>)
    requires Ranked(u, rank) && c in u
    requires u[c].interfaces == before + [i] + after
    ensures i in u
    ensures FindComponentRoleClasses(u, rank, c)
      == RolesAmong(u, rank, before, rank[c])
       + FindComponentRoleClasses(u, rank, i) + (if u[i].componentRole then [i] else [])
       + RolesAmong(u, rank, after, rank[c])
  {
    var ifs := u[c].interfaces;
    assert i in ifs;
    assert forall x :: x in before ==> x in ifs;
    assert forall x :: x in after ==> x in ifs;
    RolesAmongSplit(u, rank, before, i, after, rank[c]);
  }

  /** One step of the walk: the roles of the first interface come first. */
  lemma RolesAmongCons(u: Universe, rank: map<ClassName, nat>, i: ClassName, after: seq<ClassName>, bound: nat)
    requires Ranked(u, rank)
    requires i in u && rank[i] < bound
    requires forall x :: x in after ==> x in u && rank[x] < bound
    ensures RolesAmong(u, rank, [i] + after, bound)
         == FindComponentRoleClasses(u, rank, i) + (if u[i].componentRole then [i] else []) + RolesAmong(u, rank, after, bound)
  {
    assert ([i] + after)[0] == i;
    assert ([i] + after)[1..] == after;
  }

  /** Two universes that agree on which classes exist, on their interface
      lists and on their `@ComponentRole` markers. */
  ghost predicate SameInterfaceGraph(u: Universe, v: Universe)
  {
    && u.Keys == v.Keys
    && forall c :: c in u ==> u[c].interfaces == v[c].interfaces && u[c].componentRole == v[c].componentRole
  }

  /** Role resolution reads nothing but interface edges and role markers:
      superclasses, hints, strategies and fields have no influence. */
  lemma {:induction false} RolesIgnoreAllButInterfaces(u: Universe, v: Universe, rank: map<ClassName, nat>, c: ClassName)
    requires Ranked(u, rank) && Ranked(v, rank) && c in u
    requires SameInterfaceGraph(u, v)
    ensures FindComponentRoleClasses(u, rank, c) == FindComponentRoleClasses(v, rank, c)
    decreases rank[c], 1, 0
  {
    RolesAmongIgnoreAllButInterfaces(u, v, rank, u[c].interfaces, rank[c]);
  }

  lemma {:induction false} RolesAmongIgnoreAllButInterfaces(u: Universe, v: Universe, rank: map<ClassName, nat>, ifs: seq<ClassName>, bound: nat)
    requires Ranked(u, rank) && Ranked(v, rank)
    requires SameInterfaceGraph(u, v)
    requires forall i :: i in ifs ==> i in u && rank[i] < bound
    ensures RolesAmong(u, rank, ifs, bound) == RolesAmong(v, rank, ifs, bound)
    decreases bound, 0, |ifs|
  {
    if ifs != [] {
      RolesIgnoreAllButInterfaces(u, v, rank, ifs[0]);
      RolesAmongIgnoreAllButInterfaces(u, v, rank, ifs[1..], bound);
    }
  }

  /** Changing the superclass of any class never changes any role list. */
  lemma SuperclassNeverFollowed(u: Universe, rank: map<ClassName, nat>, d: ClassName, s: Option<ClassName>, c: ClassName)
    requires Ranked(u, rank) && c in u && d in u
    ensures Ranked(u[d := u[d].(superclass := s)], rank)
    ensures FindComponentRoleClasses(u[d := u[d].(superclass := s)], rank, c)
         == FindComponentRoleClasses(u, rank, c)
  {
    var v := u[d := u[d].(superclass := s)];
    assert SameInterfaceGraph(u, v);
    assert Ranked(v, rank);
    RolesIgnoreAllButInterfaces(u, v, rank, c);
  }
}
