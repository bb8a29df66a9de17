/** Reading the component list: every resource named `META-INF/components.txt`
    that the class loader finds is read line by line, and all lines are
    collected in the order the resources are enumerated. */
module ManifestReader {
  import opened Wrappers

  /** One located copy of the component list, already split into lines, or a
      copy whose stream cannot be opened or read. */
  datatype ManifestResource = Readable(lines: seq<string>) | Unreadable

  /** Every resource in `resources` can be read. */
  predicate AllReadable(resources: seq<ManifestResource>)
  {
    forall j :: 0 <= j < |resources| ==> resources[j].Readable?
  }

  /** The number of lines in the readable resources of `resources`. */
  function TotalLines(resources: seq<ManifestResource>): nat
  {
    if resources == [] then 0
    else
      (if resources[0].Readable? then |resources[0].lines| else 0) + TotalLines(resources[1..])
  }

  /** The number of times `line` occurs across the readable resources. */
  function Occurrences(resources: seq<ManifestResource>, line: string): nat
  {
    if resources == [] then 0
    else
      (if resources[0].Readable? then multiset(resources[0].lines)[line] else 0)
      + Occurrences(resources[1..], line)
  }

  /** The component class names listed by the resources, in enumeration
      order, or the index of the first resource that cannot be read; an
      I/O failure discards everything read before it. */
  function FindAnnotatedComponentClasses(resources: seq<ManifestResource>): (r: Result<seq<string>, nat>)
    ensures r.Success? <==> AllReadable(resources)
    ensures r.Success? ==> |r.value| == TotalLines(resources)
    ensures r.Failure? ==>
      && r.error < |resources|
      && resources[r.error].Unreadable?
      && forall j :: 0 <= j < r.error ==> resources[j].Readable?
  {
    if resources == [] then Success([])
    else
      match resources[0]
      case Unreadable => Failure(0)
      case Readable(lines) =>
        match FindAnnotatedComponentClasses(resources[1..])
        case Failure(j) =>
          assert forall i :: 0 < i <= j ==> resources[i] == resources[1..][i - 1];
          Failure(j + 1)
        case Success(rest) =>
          assert AllReadable(resources) by {
            forall j | 0 <= j < |resources| ensures resources[j].Readable? {
              if j > 0 { assert resources[j] == resources[1..][j - 1]; }
            }
          }
          Success(lines + rest)
  }

  /** The manifest lines are exactly the resources' lines laid end to end:
      line `k` of resource `j` sits after all lines of the resources before
      it. Together with the length, this pins the result down completely. */
  lemma {:induction false} LinePositions(resources: seq<ManifestResource>, j: nat, k: nat)
    requires AllReadable(resources)
    requires j < |resources| && k < |resources[j].lines|
    ensures FindAnnotatedComponentClasses(resources).Success?
    ensures TotalLines(resources[..j]) + k < |FindAnnotatedComponentClasses(resources).value|
    ensures FindAnnotatedComponentClasses(resources).value[TotalLines(resources[..j]) + k]
         == resources[j].lines[k]
    decreases j
  {
    var names := FindAnnotatedComponentClasses(resources).value;
    var rest := resources[1..];
    assert AllReadable(rest) by {
      forall i | 0 <= i < |rest| ensures rest[i].Readable? { assert rest[i] == resources[i + 1]; }
    }
    assert resources[0].Readable?;
    assert names == resources[0].lines + FindAnnotatedComponentClasses(rest).value;
    if j == 0 {
      assert resources[..0] == [];
    } else {
      LinePositions(rest, j - 1, k);
      assert resources[..j] == [resources[0]] + rest[..j - 1];
      assert TotalLines(resources[..j]) == |resources[0].lines| + TotalLines(rest[..j - 1]);
    }
  }

  /** Nothing is deduplicated, trimmed or skipped: every line, blank lines
      and repeats included, occurs in the result as often as in the
      resources together. */
  lemma {:induction false} NoDeduplication(resources: seq<ManifestResource>, line: string)
    requires AllReadable(resources)
    ensures FindAnnotatedComponentClasses(resources).Success?
    ensures multiset(FindAnnotatedComponentClasses(resources).value)[line] == Occurrences(resources, line)
  {
    if resources != [] {
      var rest := resources[1..];
      assert AllReadable(rest) by {
        forall i | 0 <= i < |rest| ensures rest[i].Readable? { assert rest[i] == resources[i + 1]; }
      }
      NoDeduplication(rest, line);
      assert resources[0].Readable?;
      assert FindAnnotatedComponentClasses(resources).value
          == resources[0].lines + FindAnnotatedComponentClasses(rest).value;
    }
  }

  /** Reading two groups of resources one after the other yields the first
      group's names followed by the second's. */
  lemma {:induction false} ConcatenatesInOrder(first: seq<ManifestResource>, second: seq<ManifestResource>)
    requires AllReadable(first) && AllReadable(second)
    ensures FindAnnotatedComponentClasses(first + second).Success?
    ensures FindAnnotatedComponentClasses(first + second).value
         == FindAnnotatedComponentClasses(first).value + FindAnnotatedComponentClasses(second).value
  {
    assert AllReadable(first + second) by {
      forall i | 0 <= i < |first + second| ensures (first + second)[i].Readable? {
        if i >= |first| { assert (first + second)[i] == second[i - |first|]; }
      }
    }
    if first != [] {
      var rest := first[1..];
      assert AllReadable(rest) by {
        forall i | 0 <= i < |rest| ensures rest[i].Readable? { assert rest[i] == first[i + 1]; }
      }
      ConcatenatesInOrder(rest, second);
      assert (first + second)[1..] == rest + second;
      assert first[0].Readable?;
    } else {
      assert first + second == second;
    }
  }
}
