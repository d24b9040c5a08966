/** The parsed KiCad netlist the translator reads (components, nets of nodes, library
    parts with their pin tables), the component index built from it, and the fatal
    failures of a translation. */
module Netlist {
  import opened Text

  const THREAD := "thread"
  const PARAMETER := "PARAMETER"
  const INPUT := "input"
  const OUTPUT := "output"
  const LOADUSR := "loadusr"
  const LOADRT := "loadrt"
  const BB_GPIO := "bb_gpio."
  const ORDER := "order"
  const SEQUENCE := "sequence"

  datatype Option<+T> = None | Some(value: T)

  /** A named field of a component; `order`/`sequence` fields order thread hooks. */
  datatype Field = Field(name: string, value: string)

  /** A schematic symbol: its reference (`U3`), its value (the text shown on the
      schematic, used as module or instance name) and the library part it comes from.
      A component without a fields block has no fields. */
  datatype Component = Component(ref: string, value: string, part: string, fields: seq<Field>)

  datatype Pin = Pin(num: string, name: string)

  /** A library part and its pin table (pin number to pin function name). */
  datatype LibPart = LibPart(part: string, pins: seq<Pin>)

  /** One end of a net: a pin of a component, its direction (`input`, `output`, ...)
      and the pin function KiCad may have written on the node itself. */
  datatype Node = Node(ref: string, pin: string, pintype: string, pinfunction: Option<string>)

  /** A net; a name that starts with `/` was given by the user. */
  datatype Net = Net(name: string, nodes: seq<Node>)

  datatype Design = Design(components: seq<Component>, nets: seq<Net>, libparts: seq<LibPart>)

  /** The exceptions that abort a translation: a node whose reference is not a component
      (a null dereference), a pin that no library part resolves, and a thread-driven part
      name without the `.` that ends its bare name. */
  datatype Failure =
    | UnknownRef(ref: string)
    | NoSuchPin(part: string, pin: string)
    | NoDotInPart(part: string)

  datatype Result<+T> = Ok(value: T) | Err(failure: Failure) {
    predicate IsFailure() { Err? }

    function PropagateFailure<U>(): Result<U>
      requires Err?
    {
      Err(failure)
    }

    function Extract(): T
      requires Ok?
    {
      value
    }
  }

  /** The component index: every component under its reference, a later component
      replacing an earlier one with the same reference (`HashMap.put`). */
  function Index(comps: seq<Component>): map<string, Component> {
    if comps == [] then map[]
    else
      var last := comps[|comps| - 1];
      Index(comps[..|comps| - 1])[last.ref := last]
  }

  predicate RefsUnique(comps: seq<Component>) {
    forall i, j :: 0 <= i < j < |comps| ==> comps[i].ref != comps[j].ref
  }

  /** The index holds exactly the references of the components. */
  lemma {:induction false} IndexKeys(comps: seq<Component>)
    ensures forall k :: k in Index(comps) <==> exists i :: 0 <= i < |comps| && comps[i].ref == k
  {
    if comps != [] {
      var n := |comps| - 1;
      var prev := comps[..n];
      IndexKeys(prev);
      assert Index(comps) == Index(prev)[comps[n].ref := comps[n]];
      forall k | k in Index(comps)
        ensures exists i :: 0 <= i < |comps| && comps[i].ref == k
      {
        if k != comps[n].ref {
          assert k in Index(prev);
          var i :| 0 <= i < n && prev[i].ref == k;
          assert comps[i].ref == k;
        }
      }
      forall k | exists i :: 0 <= i < |comps| && comps[i].ref == k
        ensures k in Index(comps)
      {
        var i :| 0 <= i < |comps| && comps[i].ref == k;
        if i < n {
          assert prev[i].ref == k;
        }
      }
    }
  }

  /** Each reference maps to the last component that carries it. */
  lemma {:induction false} IndexLastWins(comps: seq<Component>, k: string)
    requires k in Index(comps)
    ensures exists i :: 0 <= i < |comps| && Index(comps)[k] == comps[i]
                        && forall j :: i < j < |comps| ==> comps[j].ref != k
  {
    var n := |comps| - 1;
    var prev := comps[..n];
    assert Index(comps) == Index(prev)[comps[n].ref := comps[n]];
    if k != comps[n].ref {
      assert k in Index(prev);
      IndexLastWins(prev, k);
      var i :| 0 <= i < |prev| && Index(prev)[k] == prev[i]
        && forall j :: i < j < |prev| ==> prev[j].ref != k;
      assert Index(comps)[k] == comps[i];
      assert forall j :: i < j < |comps| ==> comps[j].ref != k by {
        forall j | i < j < |comps|
          ensures comps[j].ref != k
        {
          if j < n {
            assert comps[j] == prev[j];
          }
        }
      }
    } else {
      assert Index(comps)[k] == comps[n];
    }
  }

  lemma {:induction false} IndexRefs(comps: seq<Component>, k: string)
    requires k in Index(comps)
    ensures Index(comps)[k].ref == k
  {
    var n := |comps| - 1;
    var prev := comps[..n];
    assert Index(comps) == Index(prev)[comps[n].ref := comps[n]];
    if k != comps[n].ref {
      IndexRefs(prev, k);
    }
  }

  /** With unique references, the index finds every component under its own reference. */
  lemma IndexFindsEach(comps: seq<Component>, i: nat)
    requires RefsUnique(comps) && i < |comps|
    ensures comps[i].ref in Index(comps) && Index(comps)[comps[i].ref] == comps[i]
  {
    var k := comps[i].ref;
    IndexKeys(comps);
    IndexLastWins(comps, k);
    var j :| 0 <= j < |comps| && Index(comps)[k] == comps[j]
      && forall l :: j < l < |comps| ==> comps[l].ref != k;
    IndexRefs(comps, k);
    assert comps[j].ref == comps[i].ref;
  }

  /** `compMap.get(ref)` followed by a dereference: a missing reference is fatal. */
  function Lookup(idx: map<string, Component>, ref: string): (r: Result<Component>)
    ensures r.Ok? <==> ref in idx
    ensures r.Ok? ==> r.value == idx[ref]
    ensures r.Err? ==> r.failure == UnknownRef(ref)
  {
    if ref in idx then Ok(idx[ref]) else Err(UnknownRef(ref))
  }
}
