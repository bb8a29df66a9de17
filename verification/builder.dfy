/** Building the descriptor registered for one (implementation, role) pair
    from the annotations on the implementation class and its fields. */
module DescriptorBuilder {
  import opened Wrappers
  import opened ComponentDescriptors
  import opened ClassModel

  /** The dependency a `@Requirement` field stands for: the field's type as
      role, and the `@RequirementHint` value, when present, as hint. */
  function DependencyOf(f: FieldInfo): (d: ComponentDependency)
    ensures d.role == f.fieldType
    ensures d.roleHint.Some? <==> f.requirementHint.Some?
    ensures f.requirementHint.Some? ==> d.roleHint.value == f.requirementHint.value
  {
    ComponentDependency(f.fieldType, f.requirementHint)
  }

  /** The dependencies of the declared fields `fields`, in declaration order:
      one per field carrying `@Requirement`. */
  function Requirements(fields: seq<FieldInfo>): (deps: seq<ComponentDependency>)
    ensures |deps| <= |fields|
    ensures forall d :: d in deps ==> exists f :: f in fields && f.requirement && d == DependencyOf(f)
  {
    if fields == [] then []
    else
      var rest := Requirements(fields[1..]);
      assert forall d :: d in rest ==> exists f :: f in fields && f.requirement && d == DependencyOf(f) by {
        forall d | d in rest ensures exists f :: f in fields && f.requirement && d == DependencyOf(f) {
          var f :| f in fields[1..] && f.requirement && d == DependencyOf(f);
          assert f in fields;
        }
      }
      (if fields[0].requirement then [DependencyOf(fields[0])] else []) + rest
  }

  /** `idx` lists, in increasing order, exactly the positions of the fields
      of `fields` that carry `@Requirement`. */
  ghost predicate RequirementPositions(fields: seq<FieldInfo>, idx: seq<nat>)
  {
    && (forall k :: 0 <= k < |idx| ==> idx[k] < |fields|)
    && (forall k, l :: 0 <= k < l < |idx| ==> idx[k] < idx[l])
    && (forall j :: 0 <= j < |fields| ==> (fields[j].requirement <==> j in idx))
  }

  /** Every position of `idx`, one further on. */
  function Shift(idx: seq<nat>): (r: seq<nat>)
    ensures |r| == |idx|
    ensures forall k :: 0 <= k < |idx| ==> r[k] == idx[k] + 1
  {
    seq(|idx|, k requires 0 <= k < |idx| => idx[k] + 1)
  }

  /** The positions in `fields` follow from those in `fields[1..]`. */
  lemma PositionsCons(fields: seq<FieldInfo>, tail: seq<nat>)
    requires fields != []
    requires RequirementPositions(fields[1..], tail)
    ensures RequirementPositions(fields, (if fields[0].requirement then [0] else []) + Shift(tail))
  {
    var head: seq<nat> := if fields[0].requirement then [0] else [];
    PositionsConsOrdered(fields, tail, head);
    PositionsConsCover(fields, tail, head);
  }

  lemma PositionsConsOrdered(fields: seq<FieldInfo>, tail: seq<nat>, head: seq<nat>)
    requires fields != []
    requires RequirementPositions(fields[1..], tail)
    requires head == [] || head == [0]
    ensures forall k :: 0 <= k < |head + Shift(tail)| ==> (head + Shift(tail))[k] < |fields|
    ensures forall k, l :: 0 <= k < l < |head + Shift(tail)| ==> (head + Shift(tail))[k] < (head + Shift(tail))[l]
  {
    var shifted := Shift(tail);
    var idx := head + shifted;
    forall k | 0 <= k < |idx| ensures idx[k] < |fields| {
      if k >= |head| { assert idx[k] == shifted[k - |head|]; }
    }
    forall k, l | 0 <= k < l < |idx| ensures idx[k] < idx[l] {
      if k >= |head| {
        assert idx[k] == shifted[k - |head|] && idx[l] == shifted[l - |head|];
      } else {
        assert idx[l] == shifted[l - 1];
      }
    }
  }

  lemma PositionsConsCover(fields: seq<FieldInfo>, tail: seq<nat>, head: seq<nat>)
    requires fields != []
    requires RequirementPositions(fields[1..], tail)
    requires head == (if fields[0].requirement then [0] else [])
    ensures forall j :: 0 <= j < |fields| ==> (fields[j].requirement <==> j in head + Shift(tail))
  {
    forall j | 0 <= j < |fields| ensures fields[j].requirement <==> j in head + Shift(tail) {
      PositionCovered(fields, tail, head, j);
    }
  }

  lemma PositionCovered(fields: seq<FieldInfo>, tail: seq<nat>, head: seq<nat>, j: nat)
    requires fields != [] && j < |fields|
    requires RequirementPositions(fields[1..], tail)
    requires head == (if fields[0].requirement then [0] else [])
    ensures fields[j].requirement <==> j in head + Shift(tail)
  {
    var shifted := Shift(tail);
    assert j in head + shifted <==> j in head || j in shifted;
    if j == 0 {
      assert 0 !in shifted;
    } else {
      assert fields[j] == fields[1..][j - 1];
      assert j !in head;
      if j - 1 in tail {
        var k :| 0 <= k < |tail| && tail[k] == j - 1;
        assert shifted[k] == j;
      }
      if j in shifted {
        var k :| 0 <= k < |shifted| && shifted[k] == j;
        assert tail[k] == j - 1;
      }
    }
  }

  /** The dependency list is the `@Requirement` fields, in declaration order,
      each mapped to its dependency: there is exactly one dependency per
      such field and none for any other field (in particular none for a
      field carrying only `@RequirementHint`). */
  lemma {:induction false} RequirementsFollowFields(fields: seq<FieldInfo>) returns (idx: seq<nat>)
    ensures RequirementPositions(fields, idx)
    ensures |Requirements(fields)| == |idx|
    ensures forall k :: 0 <= k < |idx| ==> Requirements(fields)[k] == DependencyOf(fields[idx[k]])
  {
    if fields == [] {
      idx := [];
    } else {
      var tail := RequirementsFollowFields(fields[1..]);
      PositionsCons(fields, tail);
      var head: seq<nat> := if fields[0].requirement then [0] else [];
      var shifted := Shift(tail);
      idx := head + shifted;
      forall k | 0 <= k < |idx| ensures Requirements(fields)[k] == DependencyOf(fields[idx[k]]) {
        DependencyAt(fields, tail, head, k);
      }
    }
  }

  /** Position `k` of the dependency list, from the positions in the tail. */
  lemma DependencyAt(fields: seq<FieldInfo>, tail: seq<nat>, head: seq<nat>, k: nat)
    requires fields != []
    requires head == (if fields[0].requirement then [0] else [])
    requires |Requirements(fields[1..])| == |tail|
    requires forall m :: 0 <= m < |tail| ==> tail[m] < |fields[1..]|
    requires forall m :: 0 <= m < |tail| ==> Requirements(fields[1..])[m] == DependencyOf(fields[1..][tail[m]])
    requires k < |head + Shift(tail)|
    ensures (head + Shift(tail))[k] < |fields|
    ensures k < |Requirements(fields)|
    ensures Requirements(fields)[k] == DependencyOf(fields[(head + Shift(tail))[k]])
  {
    var rest := Requirements(fields[1..]);
    var idx := head + Shift(tail);
    assert Requirements(fields) == (if fields[0].requirement then [DependencyOf(fields[0])] else []) + rest;
    if k >= |head| {
      var m := k - |head|;
      assert idx[k] == tail[m] + 1;
      assert fields[idx[k]] == fields[1..][tail[m]];
    }
  }

  /** Dependencies of consecutive runs of fields are laid end to end. */
  lemma {:induction false} RequirementsAppend(a: seq<FieldInfo>, b: seq<FieldInfo>)
    ensures Requirements(a + b) == Requirements(a) + Requirements(b)
  {
    if a == [] {
      assert a + b == b;
    } else {
      assert (a + b)[0] == a[0];
      assert (a + b)[1..] == a[1..] + b;
      RequirementsAppend(a[1..], b);
    }
  }

  /** A field without `@Requirement`, wherever it is declared, contributes
      nothing, whatever other annotations it has. */
  lemma FieldWithoutRequirementIgnored(before: seq<FieldInfo>, f: FieldInfo, after: seq<FieldInfo>)
    requires !f.requirement
    ensures Requirements(before + [f] + after) == Requirements(before + after)
  {
    RequirementsAppend(before + [f], after);
    RequirementsAppend(before, [f]);
    RequirementsAppend(before, after);
    assert Requirements([f]) == [] by { assert [f][1..] == []; }
  }

  /** The descriptor of `implementation` registered under `role`: the role and
      implementation names as given, the `@ComponentHint` value when the
      class has one and the default hint otherwise, the
      `@InstantiationStrategy` value when present and `Singleton` otherwise,
      and one dependency per `@Requirement` field. */
  function CreateComponentDescriptor(info: ClassInfo, implementation: ClassName, role: ClassName): (d: ComponentDescriptor)
    ensures d.role == role && d.implementation == implementation
    ensures d.roleHint.Some? <==> info.componentHint.Some?
    ensures info.componentHint.Some? ==> d.roleHint.value == info.componentHint.value
    ensures info.instantiationStrategy.None? ==> d.instantiationStrategy == Singleton
    ensures info.instantiationStrategy.Some? ==> d.instantiationStrategy == info.instantiationStrategy.value
    ensures d.dependencies == Requirements(info.declaredFields)
  {
    var strategy := match info.instantiationStrategy
      case Some(s) => s
      case None => Singleton;
    ComponentDescriptor(role, implementation, info.componentHint, strategy, Requirements(info.declaredFields))
  }

  /** Two descriptors built for the same class differ only in their role. */
  lemma DescriptorsDifferOnlyInRole(info: ClassInfo, implementation: ClassName, r1: ClassName, r2: ClassName)
    ensures CreateComponentDescriptor(info, implementation, r1).(role := r2)
         == CreateComponentDescriptor(info, implementation, r2)
  {
  }
}
