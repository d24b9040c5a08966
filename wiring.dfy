/** The net and signal wiring: every net the user named (a name that starts with `/`)
    becomes a `net` line from its driving output to the pins it drives, and a net driven
    by a `PARAMETER` symbol also gets a `sets` line that puts the symbol's value on it. */
module Wiring {
  import opened Text
  import opened Netlist
  import opened Output
  import opened Pins

  predicate IsOutput(node: Node) {
    node.pintype == OUTPUT
  }

  /** The first `output` node: the driver of the net. */
  function FirstOutput(nodes: seq<Node>): (r: Option<Node>)
    ensures r.None? <==> forall i :: 0 <= i < |nodes| ==> !IsOutput(nodes[i])
    ensures r.Some? ==>
      exists i :: 0 <= i < |nodes| && nodes[i] == r.value && IsOutput(r.value)
                  && forall j :: 0 <= j < i ==> !IsOutput(nodes[j])
  {
    if nodes == [] then None
    else
      var n := |nodes| - 1;
      var r := FirstOutput(nodes[..n]);
      assert forall i :: 0 <= i < n ==> nodes[..n][i] == nodes[i];
      if r.Some? then r
      else if IsOutput(nodes[n]) then Some(nodes[n])
      else None
  }

  /** How many `output` nodes the net has. */
  function OutputCount(nodes: seq<Node>): nat {
    if nodes == [] then 0
    else OutputCount(nodes[..|nodes| - 1]) + (if IsOutput(nodes[|nodes| - 1]) then 1 else 0)
  }

  /** The nodes that are not `output`s, in node order: the pins the net drives. */
  function NonOutputs(nodes: seq<Node>): seq<Node> {
    if nodes == [] then []
    else NonOutputs(nodes[..|nodes| - 1]) + (if IsOutput(nodes[|nodes| - 1]) then [] else [nodes[|nodes| - 1]])
  }

  /** The positions of the nodes that are not `output`s, in increasing order. */
  function InputIndices(nodes: seq<Node>): seq<nat> {
    if nodes == [] then []
    else InputIndices(nodes[..|nodes| - 1]) + (if IsOutput(nodes[|nodes| - 1]) then [] else [|nodes| - 1])
  }

  /** `InputIndices` lists, in increasing order, exactly the positions of non-`output` nodes. */
  lemma {:induction false} InputIndicesShape(nodes: seq<Node>)
    ensures forall k :: 0 <= k < |InputIndices(nodes)| ==>
      InputIndices(nodes)[k] < |nodes| && !IsOutput(nodes[InputIndices(nodes)[k]])
    ensures forall k, l :: 0 <= k < l < |InputIndices(nodes)| ==> InputIndices(nodes)[k] < InputIndices(nodes)[l]
    ensures forall i :: 0 <= i < |nodes| && !IsOutput(nodes[i]) ==> i in InputIndices(nodes)
  {
    if nodes != [] {
      var n := |nodes| - 1;
      var p := nodes[..n];
      var ip := InputIndices(p);
      InputIndicesShape(p);
      var ix := InputIndices(nodes);
      assert ix == ip + (if IsOutput(nodes[n]) then [] else [n]);
      forall k | 0 <= k < |ix|
        ensures ix[k] < |nodes| && !IsOutput(nodes[ix[k]])
      {
        if k < |ip| {
          assert ix[k] == ip[k] && nodes[ip[k]] == p[ip[k]];
        }
      }
      forall i | 0 <= i < |nodes| && !IsOutput(nodes[i])
        ensures i in ix
      {
        if i < n {
          assert p[i] == nodes[i];
          assert i in ip;
        } else {
          assert ix[|ix| - 1] == n;
        }
      }
    }
  }

  /** The driven pins are the nodes at `InputIndices`: the non-`output` nodes, in net order. */
  lemma {:induction false} NonOutputsInOrder(nodes: seq<Node>)
    ensures |NonOutputs(nodes)| == |InputIndices(nodes)|
    ensures forall k :: 0 <= k < |NonOutputs(nodes)| ==>
      InputIndices(nodes)[k] < |nodes| && NonOutputs(nodes)[k] == nodes[InputIndices(nodes)[k]]
  {
    if nodes != [] {
      var n := |nodes| - 1;
      var p := nodes[..n];
      NonOutputsInOrder(p);
      var q := NonOutputs(p);
      var ip := InputIndices(p);
      var extra := if IsOutput(nodes[n]) then [] else [nodes[n]];
      assert NonOutputs(nodes) == q + extra;
      assert InputIndices(nodes) == ip + (if IsOutput(nodes[n]) then [] else [n]);
      forall k | 0 <= k < |q + extra|
        ensures InputIndices(nodes)[k] < |nodes| && (q + extra)[k] == nodes[InputIndices(nodes)[k]]
      {
        if k < |q| {
          assert (q + extra)[k] == q[k] && InputIndices(nodes)[k] == ip[k];
          assert p[ip[k]] == nodes[ip[k]];
        }
      }
    }
  }

  /** Every node is either counted as an output or kept, in order, among the driven pins. */
  lemma NodesPartition(nodes: seq<Node>)
    ensures |NonOutputs(nodes)| + OutputCount(nodes) == |nodes|
    ensures forall i :: 0 <= i < |NonOutputs(nodes)| ==> !IsOutput(NonOutputs(nodes)[i])
    ensures multiset(NonOutputs(nodes)) <= multiset(nodes)
    ensures OutputCount(nodes) == 0 <==> FirstOutput(nodes).None?
    ensures |NonOutputs(nodes)| == |InputIndices(nodes)|
    ensures forall k :: 0 <= k < |NonOutputs(nodes)| ==>
      InputIndices(nodes)[k] < |nodes| && NonOutputs(nodes)[k] == nodes[InputIndices(nodes)[k]]
  {
    NonOutputsKept(nodes);
    NoOutputNoDriver(nodes);
    NonOutputsInOrder(nodes);
  }

  lemma {:induction false} NonOutputsKept(nodes: seq<Node>)
    ensures |NonOutputs(nodes)| + OutputCount(nodes) == |nodes|
    ensures forall i :: 0 <= i < |NonOutputs(nodes)| ==> !IsOutput(NonOutputs(nodes)[i])
    ensures multiset(NonOutputs(nodes)) <= multiset(nodes)
  {
    if nodes != [] {
      var n := |nodes| - 1;
      var p := nodes[..n];
      var extra := if IsOutput(nodes[n]) then [] else [nodes[n]];
      NonOutputsKept(p);
      var q := NonOutputs(p);
      assert NonOutputs(nodes) == q + extra;
      forall i | 0 <= i < |q + extra|
        ensures !IsOutput((q + extra)[i])
      {
        if i < |q| {
          assert (q + extra)[i] == q[i];
        }
      }
      assert multiset(nodes) == multiset(p) + multiset{nodes[n]} by {
        assert nodes == p + [nodes[n]];
      }
      assert multiset(q + extra) == multiset(q) + multiset(extra);
    }
  }

  lemma {:induction false} NoOutputNoDriver(nodes: seq<Node>)
    ensures OutputCount(nodes) == 0 <==> FirstOutput(nodes).None?
  {
    if nodes != [] {
      var n := |nodes| - 1;
      NoOutputNoDriver(nodes[..n]);
      assert FirstOutput(nodes).None? <==> FirstOutput(nodes[..n]).None? && !IsOutput(nodes[n]);
    }
  }

  /** One step of the node loop: the driver, the driven pins and the warnings after one
      more node. */
  lemma ClassifyStep(nodes: seq<Node>, name: string, i: nat)
    requires i < |nodes|
    ensures IsOutput(nodes[i]) && FirstOutput(nodes[..i]).None? ==>
      && FirstOutput(nodes[..i + 1]) == Some(nodes[i])
      && NonOutputs(nodes[..i + 1]) == NonOutputs(nodes[..i])
      && Warnings(name, OutputCount(nodes[..i + 1])) == Warnings(name, OutputCount(nodes[..i]))
    ensures IsOutput(nodes[i]) && FirstOutput(nodes[..i]).Some? ==>
      && FirstOutput(nodes[..i + 1]) == FirstOutput(nodes[..i])
      && NonOutputs(nodes[..i + 1]) == NonOutputs(nodes[..i])
      && Warnings(name, OutputCount(nodes[..i + 1])) == Warnings(name, OutputCount(nodes[..i])) + [MultipleOutputsWarning(name)]
    ensures !IsOutput(nodes[i]) ==>
      && FirstOutput(nodes[..i + 1]) == FirstOutput(nodes[..i])
      && NonOutputs(nodes[..i + 1]) == NonOutputs(nodes[..i]) + [nodes[i]]
      && OutputCount(nodes[..i + 1]) == OutputCount(nodes[..i])
  {
    assert nodes[..i + 1][..i] == nodes[..i];
    NonOutputsKept(nodes[..i]);
    NoOutputNoDriver(nodes[..i]);
  }

  function MultipleOutputsWarning(name: string): string {
    "# WARNING: multiple outputs connected to net " + name
  }

  function NoSuitablePins(name: string): string {
    "# No suitable pins connected to net " + name
  }

  /** A net the user named, with at least two nodes. */
  predicate IsWiringNet(net: Net) {
    |net.nodes| >= 2 && StartsWith(net.name, "/")
  }

  /** The HAL name of a node's pin: the full name built from its component's value. */
  function PinFullName(node: Node, idx: map<string, Component>, libparts: seq<LibPart>): Result<string> {
    var comp :- Lookup(idx, node.ref);
    var pf :- PinFunction(libparts, node, comp.part);
    Ok(BuildFullName(comp.value, pf))
  }

  /** The full names of the driven pins, in order; the failure of the first pin that has none. */
  function DrivenPins(nodes: seq<Node>, idx: map<string, Component>, libparts: seq<LibPart>): (r: Result<seq<string>>)
    ensures r.Ok? <==> forall k :: 0 <= k < |nodes| ==> PinFullName(nodes[k], idx, libparts).Ok?
    ensures r.Ok? ==>
      |r.value| == |nodes| && forall k :: 0 <= k < |nodes| ==> PinFullName(nodes[k], idx, libparts) == Ok(r.value[k])
    ensures r.Err? ==>
      exists k :: 0 <= k < |nodes| && PinFullName(nodes[k], idx, libparts) == Err(r.failure)
                  && forall j :: 0 <= j < k ==> PinFullName(nodes[j], idx, libparts).Ok?
  {
    if nodes == [] then Ok([])
    else
      var first := PinFullName(nodes[0], idx, libparts);
      if first.Err? then Err(first.failure)
      else
        var rest := DrivenPins(nodes[1..], idx, libparts);
        assert forall k :: 0 < k < |nodes| ==> nodes[k] == nodes[1..][k - 1];
        if rest.Err? then
          ghost var k :| 0 <= k < |nodes| - 1 && PinFullName(nodes[1..][k], idx, libparts) == Err(rest.failure)
            && forall j :: 0 <= j < k ==> PinFullName(nodes[1..][j], idx, libparts).Ok?;
          assert PinFullName(nodes[k + 1], idx, libparts) == Err(rest.failure);
          Err(rest.failure)
        else
          Ok([first.value] + rest.value)
  }

  /** A pin loop that meets its first unresolvable pin at `j` fails with that pin's failure. */
  lemma DrivenPinsFailsAt(nodes: seq<Node>, idx: map<string, Component>, libparts: seq<LibPart>, j: nat)
    requires j < |nodes| && PinFullName(nodes[j], idx, libparts).Err?
    requires forall k :: 0 <= k < j ==> PinFullName(nodes[k], idx, libparts).Ok?
    ensures DrivenPins(nodes, idx, libparts) == Err(PinFullName(nodes[j], idx, libparts).failure)
  {
    var r := DrivenPins(nodes, idx, libparts);
    var k :| 0 <= k < |nodes| && PinFullName(nodes[k], idx, libparts) == Err(r.failure)
             && forall l :: 0 <= l < k ==> PinFullName(nodes[l], idx, libparts).Ok?;
    assert k == j;
  }

  /** A pin loop that resolves every pin yields exactly the resolved names. */
  lemma DrivenPinsAllOk(nodes: seq<Node>, idx: map<string, Component>, libparts: seq<LibPart>, pins: seq<string>)
    requires |pins| == |nodes|
    requires forall k :: 0 <= k < |nodes| ==> PinFullName(nodes[k], idx, libparts) == Ok(pins[k])
    ensures DrivenPins(nodes, idx, libparts) == Ok(pins)
  {
    var r := DrivenPins(nodes, idx, libparts);
    assert r.Ok?;
    assert forall k :: 0 <= k < |nodes| ==> r.value[k] == pins[k];
    assert r.value == pins;
  }

  /** The driven pins as printed after the driver: each preceded by one space. */
  function JoinPins(pins: seq<string>): string {
    if pins == [] then "" else " " + pins[0] + JoinPins(pins[1..])
  }

  lemma {:induction false} JoinPinsAppend(pins: seq<string>, p: string)
    ensures JoinPins(pins + [p]) == JoinPins(pins) + " " + p
  {
    if pins != [] {
      assert (pins + [p])[1..] == pins[1..] + [p];
      JoinPinsAppend(pins[1..], p);
    }
  }

  /** What the line says about the driver: nothing for a `PARAMETER` symbol (its value is
      put on the net by a `sets` line), otherwise its full pin name followed by `=>`. */
  function DriverSegment(driver: Node, idx: map<string, Component>, libparts: seq<LibPart>): Result<string> {
    var comp :- Lookup(idx, driver.ref);
    if comp.part == PARAMETER then Ok("")
    else
      var pf :- PinFunction(libparts, driver, comp.part);
      Ok(" " + BuildFullName(comp.value, pf) + " =>")
  }

  /** The arrow is left out exactly for a `PARAMETER` driver; any other driver is named by
      the full name of its pin. */
  lemma DriverSegmentShape(driver: Node, idx: map<string, Component>, libparts: seq<LibPart>)
    requires DriverSegment(driver, idx, libparts).Ok?
    ensures driver.ref in idx
    ensures DriverSegment(driver, idx, libparts).value == "" <==> idx[driver.ref].part == PARAMETER
    ensures idx[driver.ref].part != PARAMETER ==>
      PinFullName(driver, idx, libparts).Ok?
      && DriverSegment(driver, idx, libparts).value == " " + PinFullName(driver, idx, libparts).value + " =>"
  {
  }

  /** The lines of one named net: a warning for every output after the first, then either a
      note that the net has no driver or no driven pin, or its `net` line. The name is
      printed without its leading `/`. */
  function WiringNetLines(net: Net, idx: map<string, Component>, libparts: seq<LibPart>): Result<seq<string>> {
    if !IsWiringNet(net) then Ok([])
    else
      var name := net.name[1..];
      var count := OutputCount(net.nodes);
      var warnings := Warnings(name, count);
      var driven := NonOutputs(net.nodes);
      match FirstOutput(net.nodes)
      case None => Ok(warnings + [NoSuitablePins(name)])
      case Some(driver) =>
        if driven == [] then Ok(warnings + [NoSuitablePins(name)])
        else
          var line :- NetLineOf(name, driver, driven, idx, libparts);
          Ok(warnings + [line])
  }

  /** The `net` line of a net with a driver and driven pins: the driver is resolved first,
      then the driven pins in order. */
  function NetLineOf(name: string, driver: Node, driven: seq<Node>, idx: map<string, Component>, libparts: seq<LibPart>)
    : Result<string>
  {
    var segment :- DriverSegment(driver, idx, libparts);
    var pins :- DrivenPins(driven, idx, libparts);
    Ok(NetLine(name, segment, pins))
  }

  /** `net <name>`, the driver segment and the driven pins. */
  function NetLine(name: string, segment: string, pins: seq<string>): string {
    "net " + name + segment + JoinPins(pins)
  }

  lemma NetLineIsNotNote(name: string, segment: string, pins: seq<string>)
    ensures StartsWith(NetLine(name, segment, pins), "net ")
    ensures !StartsWith(NoSuitablePins(name), "net ")
  {
    assert NetLine(name, segment, pins)[..4] == "net ";
    assert NoSuitablePins(name)[0] == '#';
  }

  /** The warnings printed while the nodes are classified: one per output after the first. */
  function Warnings(name: string, count: nat): seq<string> {
    Repeat(MultipleOutputsWarning(name), if count > 0 then count - 1 else 0)
  }

  /** A named net without a driver or without a driven pin never aborts the translation:
      it only gets its warnings and the no-suitable-pins note. */
  lemma UnsuitableNetNotes(net: Net, idx: map<string, Component>, libparts: seq<LibPart>)
    requires IsWiringNet(net)
    requires FirstOutput(net.nodes).None? || NonOutputs(net.nodes) == []
    ensures WiringNetLines(net, idx, libparts)
            == Ok(Warnings(net.name[1..], OutputCount(net.nodes)) + [NoSuitablePins(net.name[1..])])
  {
  }

  /** A named net prints one warning per extra output and then one more line; that line is
      the no-suitable-pins note exactly when the net lacks a driver or a driven pin, and
      the `net` line otherwise. */
  lemma WiringNetShape(net: Net, idx: map<string, Component>, libparts: seq<LibPart>)
    requires IsWiringNet(net) && WiringNetLines(net, idx, libparts).Ok?
    ensures var ls := WiringNetLines(net, idx, libparts).value;
      var count := OutputCount(net.nodes);
      var name := net.name[1..];
      && |ls| == (if count > 0 then count else 1)
      && (forall i :: 0 <= i < |ls| - 1 ==> ls[i] == MultipleOutputsWarning(name))
      && (ls[|ls| - 1] == NoSuitablePins(name) <==> count == 0 || NonOutputs(net.nodes) == [])
      && (StartsWith(ls[|ls| - 1], "net ") <==> count > 0 && NonOutputs(net.nodes) != [])
  {
    NonOutputsKept(net.nodes);
    NoOutputNoDriver(net.nodes);
    var name := net.name[1..];
    var w := Warnings(name, OutputCount(net.nodes));
    var ls := WiringNetLines(net, idx, libparts).value;
    if OutputCount(net.nodes) > 0 && NonOutputs(net.nodes) != [] {
      var line := NetLineOf(name, FirstOutput(net.nodes).value, NonOutputs(net.nodes), idx, libparts);
      assert line.Ok? && ls == w + [line.value];
      var segment := DriverSegment(FirstOutput(net.nodes).value, idx, libparts).value;
      var pins := DrivenPins(NonOutputs(net.nodes), idx, libparts).value;
      assert line.value == NetLine(name, segment, pins);
      NetLineIsNotNote(name, segment, pins);
    } else {
      assert ls == w + [NoSuitablePins(name)];
      NetLineIsNotNote(name, "", []);
    }
    forall i | 0 <= i < |ls| - 1
      ensures ls[i] == MultipleOutputsWarning(name)
    {
      assert ls[i] == w[i];
    }
  }

  /** The body of the net section: every net, in net order. */
  function WiringSection(nets: seq<Net>, idx: map<string, Component>, libparts: seq<LibPart>): Result<seq<string>> {
    if nets == [] then Ok([])
    else
      var first :- WiringNetLines(nets[0], idx, libparts);
      Prepend(first, WiringSection(nets[1..], idx, libparts))
  }

  // ---------------------------------------------------------------------------
  // Signals
  // ---------------------------------------------------------------------------

  /** The driver of a named net that gets a `net` line, when it belongs to a `PARAMETER`
      symbol. */
  function SignalOf(net: Net, idx: map<string, Component>): Option<Node> {
    if IsWiringNet(net) && NonOutputs(net.nodes) != [] then
      match FirstOutput(net.nodes)
      case Some(driver) =>
        if driver.ref in idx && idx[driver.ref].part == PARAMETER then Some(driver) else None
      case None => None
    else None
  }

  /** The `HashMap<String, NodeType>` of signals: each such net's full name (with its `/`)
      mapped to its driver, a later net replacing an earlier one of the same name. */
  function SignalTable(nets: seq<Net>, idx: map<string, Component>): map<string, Node> {
    if nets == [] then map[]
    else
      var last := nets[|nets| - 1];
      var m := SignalTable(nets[..|nets| - 1], idx);
      var signal := SignalOf(last, idx);
      if signal.Some? then m[last.name := signal.value] else m
  }

  /** Net `net` is named `k` and driven by a `PARAMETER` symbol. */
  predicate SignalNamed(net: Net, idx: map<string, Component>, k: string) {
    net.name == k && SignalOf(net, idx).Some?
  }

  /** The signal table has an entry for exactly the names of the nets driven by a
      `PARAMETER` symbol. */
  lemma {:induction false} SignalTableKeys(nets: seq<Net>, idx: map<string, Component>)
    ensures forall k :: k in SignalTable(nets, idx) <==> exists i :: 0 <= i < |nets| && SignalNamed(nets[i], idx, k)
  {
    if nets != [] {
      var n := |nets| - 1;
      var prev := nets[..n];
      var pm := SignalTable(prev, idx);
      var signal := SignalOf(nets[n], idx);
      assert SignalTable(nets, idx) == if signal.Some? then pm[nets[n].name := signal.value] else pm;
      SignalTableKeys(prev, idx);
      forall k | k in SignalTable(nets, idx)
        ensures exists i :: 0 <= i < |nets| && SignalNamed(nets[i], idx, k)
      {
        if !SignalNamed(nets[n], idx, k) {
          assert k in pm;
          var i :| 0 <= i < n && SignalNamed(prev[i], idx, k);
          assert nets[i] == prev[i];
        }
      }
      forall k | exists i :: 0 <= i < |nets| && SignalNamed(nets[i], idx, k)
        ensures k in SignalTable(nets, idx)
      {
        var i :| 0 <= i < |nets| && SignalNamed(nets[i], idx, k);
        if i < n {
          assert SignalNamed(prev[i], idx, k);
        }
      }
    }
  }

  /** No net after position `i` is a signal named `k`. */
  predicate NoSignalAfter(nets: seq<Net>, idx: map<string, Component>, k: string, i: nat) {
    forall j :: i < j < |nets| ==> !SignalNamed(nets[j], idx, k)
  }

  lemma NoSignalAfterExtend(nets: seq<Net>, idx: map<string, Component>, k: string, i: nat)
    requires |nets| > 0 && NoSignalAfter(nets[..|nets| - 1], idx, k, i)
    requires !SignalNamed(nets[|nets| - 1], idx, k)
    ensures NoSignalAfter(nets, idx, k, i)
  {
    var n := |nets| - 1;
    forall j | i < j < |nets|
      ensures !SignalNamed(nets[j], idx, k)
    {
      if j < n {
        assert nets[j] == nets[..n][j];
      }
    }
  }

  /** Each entry is the driver of the last net of that name driven by a `PARAMETER` symbol. */
  lemma {:induction false} SignalTableLastWins(nets: seq<Net>, idx: map<string, Component>, k: string)
    requires k in SignalTable(nets, idx)
    ensures exists i :: 0 <= i < |nets| && SignalNamed(nets[i], idx, k)
                        && SignalOf(nets[i], idx) == Some(SignalTable(nets, idx)[k])
                        && NoSignalAfter(nets, idx, k, i)
  {
    var n := |nets| - 1;
    var prev := nets[..n];
    var pm := SignalTable(prev, idx);
    var m := SignalTable(nets, idx);
    var signal := SignalOf(nets[n], idx);
    assert m == if signal.Some? then pm[nets[n].name := signal.value] else pm;
    if SignalNamed(nets[n], idx, k) {
      assert m[k] == signal.value;
      assert NoSignalAfter(nets, idx, k, n);
    } else {
      assert k in pm && m[k] == pm[k];
      SignalTableLastWins(prev, idx, k);
      var i :| 0 <= i < n && SignalNamed(prev[i], idx, k) && SignalOf(prev[i], idx) == Some(pm[k])
        && NoSignalAfter(prev, idx, k, i);
      assert nets[i] == prev[i];
      NoSignalAfterExtend(nets, idx, k, i);
    }
  }

  /** Every signal's driver is a node of a `PARAMETER` symbol in the index. */
  lemma {:induction false} SignalTableParams(nets: seq<Net>, idx: map<string, Component>)
    ensures forall k :: k in SignalTable(nets, idx) ==>
      SignalTable(nets, idx)[k].ref in idx && idx[SignalTable(nets, idx)[k].ref].part == PARAMETER
  {
    if nets != [] {
      SignalTableParams(nets[..|nets| - 1], idx);
    }
  }

  /** `out.format("sets %-20s %s", netName, value)`. */
  function SetsLine(name: string, value: string): string {
    "sets " + PadRight(name, 20) + " " + value
  }

  /** Every signal is driven by a node of a known component. */
  predicate SignalsKnown(table: map<string, Node>, idx: map<string, Component>) {
    forall k :: k in table ==> table[k].ref in idx
  }

  /** The `sets` lines of the signal table, in the given iteration order of the table. */
  function SetsLines(order: seq<string>, table: map<string, Node>, idx: map<string, Component>): seq<string>
    requires IsEnumeration(order, table) && SignalsKnown(table, idx)
    decreases |order|
  {
    if order == [] then []
    else
      var k := order[|order| - 1];
      SetsLines(order[..|order| - 1], table - {k}, idx) + [SetsLine(k, idx[table[k].ref].value)]
  }

  lemma {:induction false} SetsLinesLength(order: seq<string>, table: map<string, Node>, idx: map<string, Component>)
    requires IsEnumeration(order, table) && SignalsKnown(table, idx)
    ensures |SetsLines(order, table, idx)| == |order|
    decreases |order|
  {
    if order != [] {
      SetsLinesLength(order[..|order| - 1], table - {order[|order| - 1]}, idx);
    }
  }

  lemma {:induction false} SetsLineAt(order: seq<string>, table: map<string, Node>, idx: map<string, Component>, i: nat)
    requires IsEnumeration(order, table) && SignalsKnown(table, idx) && i < |order|
    ensures order[i] in table && table[order[i]].ref in idx && |SetsLines(order, table, idx)| == |order|
    ensures SetsLines(order, table, idx)[i] == SetsLine(order[i], idx[table[order[i]].ref].value)
    decreases |order|
  {
    var n := |order| - 1;
    var k := order[n];
    SetsLinesLength(order, table, idx);
    if i < n {
      EnumerationListsKeys(order, table);
      SetsLineAt(order[..n], table - {k}, idx, i);
      assert order[i] == order[..n][i] && order[i] != k;
    }
  }

  /** One `sets` line per signal, each naming its net and carrying the value of the
      symbol that drives it. */
  lemma SetsLinesContent(order: seq<string>, table: map<string, Node>, idx: map<string, Component>)
    requires IsEnumeration(order, table) && SignalsKnown(table, idx)
    ensures |SetsLines(order, table, idx)| == |order| == |table|
    ensures forall i :: 0 <= i < |order| ==>
      order[i] in table && table[order[i]].ref in idx
      && SetsLines(order, table, idx)[i] == SetsLine(order[i], idx[table[order[i]].ref].value)
  {
    SetsLinesLength(order, table, idx);
    EnumerationSize(order, table);
    forall i | 0 <= i < |order|
      ensures order[i] in table && table[order[i]].ref in idx
              && SetsLines(order, table, idx)[i] == SetsLine(order[i], idx[table[order[i]].ref].value)
    {
      SetsLineAt(order, table, idx, i);
    }
  }

  /** One step of the net loop of the net section. */
  lemma WiringSectionStep(nets: seq<Net>, idx: map<string, Component>, libparts: seq<LibPart>, i: nat, done: seq<string>)
    requires i < |nets|
    requires WiringSection(nets, idx, libparts) == Prepend(done, WiringSection(nets[i..], idx, libparts))
    ensures var first := WiringNetLines(nets[i], idx, libparts);
      WiringSection(nets, idx, libparts)
      == if first.Err? then Err(first.failure)
         else Prepend(done + first.value, WiringSection(nets[i + 1..], idx, libparts))
  {
    assert nets[i..][0] == nets[i] && nets[i..][1..] == nets[i + 1..];
    PrependStep(WiringSection(nets, idx, libparts), done, WiringNetLines(nets[i], idx, libparts),
                WiringSection(nets[i + 1..], idx, libparts));
  }

  /** The signal table after one more net. */
  lemma SignalTableStep(nets: seq<Net>, idx: map<string, Component>, i: nat)
    requires i < |nets|
    ensures var signal := SignalOf(nets[i], idx);
      SignalTable(nets[..i + 1], idx)
      == if signal.Some? then SignalTable(nets[..i], idx)[nets[i].name := signal.value] else SignalTable(nets[..i], idx)
  {
    assert nets[..i + 1][..i] == nets[..i];
  }
}
