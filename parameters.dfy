/** The parameter extractor: an unnamed net between a `PARAMETER` symbol and one pin
    becomes a `setp` line that assigns the symbol's value to the pin. */
module Parameters {
  import opened Text
  import opened Netlist
  import opened Output
  import opened Pins

  /** What a node of a parameter net supplies: the literal of a `PARAMETER` symbol, or the
      name of the pin to set. */
  datatype Role = Literal(value: string) | Target(pin: string)

  /** The pin name of a target: the bare pin function for a `loadrt` part, the full name
      otherwise. */
  function TargetName(comp: Component, pinfunction: string): string {
    if IsLoadrt(comp.part) then pinfunction else BuildFullName(comp.value, pinfunction)
  }

  function ParamRole(node: Node, idx: map<string, Component>, libparts: seq<LibPart>): Result<Role> {
    var comp :- Lookup(idx, node.ref);
    if comp.part == PARAMETER then Ok(Literal(comp.value))
    else
      var pf :- PinFunction(libparts, node, comp.part);
      Ok(Target(TargetName(comp, pf)))
  }

  /** The roles of the nodes, in node order; the first failure otherwise. */
  function ParamRoles(nodes: seq<Node>, idx: map<string, Component>, libparts: seq<LibPart>): Result<seq<Role>> {
    if nodes == [] then Ok([])
    else
      var first :- ParamRole(nodes[0], idx, libparts);
      Prepend([first], ParamRoles(nodes[1..], idx, libparts))
  }

  /** `value`: the literal assigned last in the node loop. */
  function LastLiteral(roles: seq<Role>): Option<string> {
    if roles == [] then None
    else if roles[|roles| - 1].Literal? then Some(roles[|roles| - 1].value)
    else LastLiteral(roles[..|roles| - 1])
  }

  /** `pinName`: the pin assigned last in the node loop. */
  function LastTarget(roles: seq<Role>): Option<string> {
    if roles == [] then None
    else if roles[|roles| - 1].Target? then Some(roles[|roles| - 1].pin)
    else LastTarget(roles[..|roles| - 1])
  }

  /** `out.format("setp %-20s\t%s", pinName, value)`. */
  function SetpLine(pin: string, value: string): string {
    "setp " + PadRight(pin, 20) + "\t" + value
  }

  /** Exactly two nodes and a name KiCad chose (one that does not start with `/`). */
  predicate IsParameterNet(net: Net) {
    |net.nodes| == 2 && !StartsWith(net.name, "/")
  }

  /** What `printParameters` prints for one net. */
  function ParameterNetLines(net: Net, idx: map<string, Component>, libparts: seq<LibPart>): Result<seq<string>> {
    if !IsParameterNet(net) then Ok([])
    else
      var roles :- ParamRoles(net.nodes, idx, libparts);
      match (LastLiteral(roles), LastTarget(roles))
      case (Some(value), Some(pin)) => Ok([SetpLine(pin, value)])
      case _ => Ok([])
  }

  /** The body of the parameter section: every net, in net order. */
  function ParameterSection(nets: seq<Net>, idx: map<string, Component>, libparts: seq<LibPart>): Result<seq<string>> {
    if nets == [] then Ok([])
    else
      var first :- ParameterNetLines(nets[0], idx, libparts);
      Prepend(first, ParameterSection(nets[1..], idx, libparts))
  }

  predicate IsParam(node: Node, idx: map<string, Component>) {
    node.ref in idx && idx[node.ref].part == PARAMETER
  }

  lemma ParamRolesOfPair(nodes: seq<Node>, idx: map<string, Component>, libparts: seq<LibPart>)
    requires |nodes| == 2 && ParamRoles(nodes, idx, libparts).Ok?
    ensures ParamRole(nodes[0], idx, libparts).Ok? && ParamRole(nodes[1], idx, libparts).Ok?
    ensures ParamRoles(nodes, idx, libparts).value
            == [ParamRole(nodes[0], idx, libparts).value, ParamRole(nodes[1], idx, libparts).value]
  {
    var rest := nodes[1..];
    assert rest[0] == nodes[1] && rest[1..] == [];
    assert ParamRoles(rest[1..], idx, libparts) == Ok([]);
    assert ParamRole(rest[0], idx, libparts).Ok?;
    var r1 := ParamRole(nodes[1], idx, libparts).value;
    assert [r1] + [] == [r1];
    assert ParamRoles(rest, idx, libparts) == Ok([r1]);
  }

  lemma LastOfPair(a: Role, b: Role)
    ensures LastLiteral([a, b]) == if b.Literal? then Some(b.value) else if a.Literal? then Some(a.value) else None
    ensures LastTarget([a, b]) == if b.Target? then Some(b.pin) else if a.Target? then Some(a.pin) else None
  {
    assert [a, b][..1] == [a] && [a][..0] == [];
    assert LastLiteral([a]) == if a.Literal? then Some(a.value) else LastLiteral([]);
    assert LastTarget([a]) == if a.Target? then Some(a.pin) else LastTarget([]);
  }

  /** A parameter net yields a `setp` line exactly when one of its two nodes belongs to a
      `PARAMETER` symbol and the other does not; the line assigns that symbol's value to
      the other node's pin (its bare pin function for a `loadrt` part, its full name
      otherwise). */
  lemma SetpIffOneParameter(net: Net, idx: map<string, Component>, libparts: seq<LibPart>)
    requires IsParameterNet(net) && ParameterNetLines(net, idx, libparts).Ok?
    ensures net.nodes[0].ref in idx && net.nodes[1].ref in idx
    ensures ParameterNetLines(net, idx, libparts).value != []
            <==> IsParam(net.nodes[0], idx) != IsParam(net.nodes[1], idx)
    ensures IsParam(net.nodes[0], idx) && !IsParam(net.nodes[1], idx) ==>
      var comp := idx[net.nodes[1].ref];
      var pf := PinFunction(libparts, net.nodes[1], comp.part);
      pf.Ok? && ParameterNetLines(net, idx, libparts).value
                == [SetpLine(TargetName(comp, pf.value), idx[net.nodes[0].ref].value)]
    ensures IsParam(net.nodes[1], idx) && !IsParam(net.nodes[0], idx) ==>
      var comp := idx[net.nodes[0].ref];
      var pf := PinFunction(libparts, net.nodes[0], comp.part);
      pf.Ok? && ParameterNetLines(net, idx, libparts).value
                == [SetpLine(TargetName(comp, pf.value), idx[net.nodes[1].ref].value)]
  {
    ParamRolesOfPair(net.nodes, idx, libparts);
    var r0 := ParamRole(net.nodes[0], idx, libparts).value;
    var r1 := ParamRole(net.nodes[1], idx, libparts).value;
    LastOfPair(r0, r1);
  }

  /** One step of the node loop: the role of the next node is appended, or its failure
      is the outcome. */
  lemma ParamRolesStep(nodes: seq<Node>, idx: map<string, Component>, libparts: seq<LibPart>, i: nat, done: seq<Role>)
    requires i < |nodes|
    requires ParamRoles(nodes, idx, libparts) == Prepend(done, ParamRoles(nodes[i..], idx, libparts))
    ensures var first := ParamRole(nodes[i], idx, libparts);
      ParamRoles(nodes, idx, libparts)
      == if first.Err? then Err(first.failure)
         else Prepend(done + [first.value], ParamRoles(nodes[i + 1..], idx, libparts))
  {
    assert nodes[i..][0] == nodes[i] && nodes[i..][1..] == nodes[i + 1..];
    var first := ParamRole(nodes[i], idx, libparts);
    var wrapped: Result<seq<Role>> := if first.Err? then Err(first.failure) else Ok([first.value]);
    PrependStep(ParamRoles(nodes, idx, libparts), done, wrapped, ParamRoles(nodes[i + 1..], idx, libparts));
  }

  /** One step of the net loop of the parameter section. */
  lemma ParameterSectionStep(nets: seq<Net>, idx: map<string, Component>, libparts: seq<LibPart>, i: nat, done: seq<string>)
    requires i < |nets|
    requires ParameterSection(nets, idx, libparts) == Prepend(done, ParameterSection(nets[i..], idx, libparts))
    ensures var first := ParameterNetLines(nets[i], idx, libparts);
      ParameterSection(nets, idx, libparts)
      == if first.Err? then Err(first.failure)
         else Prepend(done + first.value, ParameterSection(nets[i + 1..], idx, libparts))
  {
    assert nets[i..][0] == nets[i] && nets[i..][1..] == nets[i + 1..];
    PrependStep(ParameterSection(nets, idx, libparts), done, ParameterNetLines(nets[i], idx, libparts),
                ParameterSection(nets[i + 1..], idx, libparts));
  }

  /** The last literal and the last target after one more role. */
  lemma LastAfter(roles: seq<Role>, r: Role)
    ensures LastLiteral(roles + [r]) == if r.Literal? then Some(r.value) else LastLiteral(roles)
    ensures LastTarget(roles + [r]) == if r.Target? then Some(r.pin) else LastTarget(roles)
  {
    assert (roles + [r])[..|roles|] == roles;
  }
}
