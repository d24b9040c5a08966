/** The translator object: it holds the parsed netlist and its component index, and each
    `Print...` step appends the lines of one section of the HAL configuration to `out`.
    Every step is proved against the functions of the other modules that say what the
    section holds; a step that hits a fatal condition stops and reports it. */
module KiCad2Hal {
  import opened Text
  import opened Netlist
  import opened Output
  import opened Pins
  import opened ModuleLoader
  import opened HookScheduler
  import opened Parameters
  import opened Wiring

  const MODULES_TITLE := "Load realtime and userspace modules"
  const HOOKS_TITLE := "Hook functions into threads"
  const PARAMETERS_TITLE := "Set parameters"
  const NETS_TITLE := "Connect component pins with nets"
  const SIGNALS_TITLE := "Connect signals to nets"

  class Translator {
    /** The parsed netlist export. */
    const netlist: Design
    /** Component reference to component, built once by the constructor. */
    const compMap: map<string, Component>
    /** The lines printed so far. */
    var out: seq<string>

    /** The index is the one built from the component list, and knows every component. */
    ghost predicate Indexed() {
      && compMap == Index(netlist.components)
      && forall i :: 0 <= i < |netlist.components| ==> netlist.components[i].ref in compMap
    }

    /** Indexes the components by reference; nothing has been printed yet. */
    constructor(design: Design)
      ensures netlist == design && out == []
      ensures compMap == Index(design.components)
      ensures Indexed()
    {
      netlist := design;
      var comps := design.components;
      var m: map<string, Component> := map[];
      var i := 0;
      while i < |comps|
        invariant 0 <= i <= |comps|
        invariant m == Index(comps[..i])
      {
        assert comps[..i + 1][..i] == comps[..i];
        m := m[comps[i].ref := comps[i]];
        i := i + 1;
      }
      assert comps[..i] == comps;
      compMap := m;
      out := [];
      new;
      IndexKeys(comps);
    }

    /** `printSectionIntro(message)`. */
    method PrintSectionIntro(message: string)
      modifies this
      ensures out == old(out) + SectionIntro(message)
    {
      out := out + [""];
      out := out + [""];
      out := out + ["####################################################"];
      out := out + ["# " + message];
    }

    /** `getNumber(s)`: the loop as written, which multiplies an accumulator that starts
        at 0 and so always returns 0. */
    method GetNumber(s: string) returns (num: int)
      ensures num == NumberKey(s)
      ensures num == 0
    {
      num := 0;
      var i := 0;
      while i < |s|
        invariant 0 <= i <= |s|
        invariant num == NumberKey(s[..i])
      {
        assert s[..i + 1][..i] == s[..i];
        var ch := s[i];
        if IsDigit(ch) {
          num := Wrap32(num * (10 + DigitValue(ch)));
        }
        i := i + 1;
      }
      assert s[..i] == s;
      NumberKeyIsZero(s);
    }

    /** `findAndPrintModulesToLoad(modules, prefix)`: collects the references of the
        components whose part starts with `prefix`, sorts them by `getNumber`, and prints the
        value of each. */
    method FindAndPrintModulesToLoad(prefix: string)
      requires Indexed()
      modifies this
      ensures out == old(out) + ModuleLoadLines(netlist.components, compMap, prefix)
    {
      var modules := CollectModules(prefix);
      SortedModuleRefsIndexed(netlist.components, compMap, prefix);
      modules := SortDesc(modules, NumberKey);
      PrintValues(modules);
    }

    /** The references of the components whose part starts with `prefix`, in list order. */
    method CollectModules(prefix: string) returns (modules: seq<string>)
      ensures modules == ModuleRefs(netlist.components, prefix)
    {
      var comps := netlist.components;
      modules := [];
      var i := 0;
      while i < |comps|
        invariant 0 <= i <= |comps|
        invariant modules == ModuleRefs(comps[..i], prefix)
      {
        assert comps[..i + 1][..i] == comps[..i];
        if StartsWith(comps[i].part, prefix) {
          modules := modules + [comps[i].ref];
        }
        i := i + 1;
      }
      assert comps[..i] == comps;
    }

    /** `modules.forEach(ref -> out.println(compMap.get(ref).getValue()))`. */
    method PrintValues(refs: seq<string>)
      requires forall r :: r in refs ==> r in compMap
      modifies this
      ensures out == old(out) + ValuesOf(compMap, refs)
    {
      var j := 0;
      while j < |refs|
        invariant 0 <= j <= |refs|
        invariant out == old(out) + ValuesOf(compMap, refs[..j])
      {
        assert refs[..j + 1][..j] == refs[..j];
        out := out + [compMap[refs[j]].value];
        j := j + 1;
      }
      assert refs[..j] == refs;
    }

    /** All nodes of every net on which component `ref` has a node, in net order. */
    method CollectThreadNodes(ref: string) returns (nodes: seq<Node>)
      ensures nodes == ThreadNodes(netlist.nets, ref)
    {
      var nets := netlist.nets;
      nodes := [];
      var i := 0;
      while i < |nets|
        invariant 0 <= i <= |nets|
        invariant nodes == ThreadNodes(nets[..i], ref)
      {
        assert nets[..i + 1][..i] == nets[..i];
        var net := nets[i];
        var found := false;
        var j := 0;
        while j < |net.nodes| && !found
          invariant 0 <= j <= |net.nodes|
          invariant found ==> HasRef(net.nodes, ref)
          invariant !found ==> forall l :: 0 <= l < j ==> net.nodes[l].ref != ref
        {
          found := net.nodes[j].ref == ref;
          j := j + 1;
        }
        if found {
          nodes := nodes + net.nodes;
        }
        i := i + 1;
      }
      assert nets[..i] == nets;
    }

    /** The tally of a thread's nodes: for every `input` node of a part without its own
        `loadrt` line, one more count under the part name before its first `.`. */
    method CountThreadComps(nodes: seq<Node>) returns (r: Result<map<string, nat>>)
      ensures r == ThreadTally(nodes, compMap)
    {
      var counts: map<string, nat> := map[];
      ghost var parts: seq<string> := [];
      var i := 0;
      assert nodes[i..] == nodes;
      PrependNothing(BareParts(nodes, compMap));
      while i < |nodes|
        invariant 0 <= i <= |nodes|
        invariant BareParts(nodes, compMap) == Prepend(parts, BareParts(nodes[i..], compMap))
        invariant counts == CountMap(parts)
      {
        var node := nodes[i];
        assert nodes[i..][0] == node && nodes[i..][1..] == nodes[i + 1..];
        if NodePart(node, compMap).Ok? {
          PrependPrepend(parts, NodePart(node, compMap).value, BareParts(nodes[i + 1..], compMap));
        }
        assert parts + [] == parts;
        if node.pintype == INPUT {
          if node.ref !in compMap {
            return Err(UnknownRef(node.ref));
          }
          var part := compMap[node.ref].part;
          if !IsLoadrt(part) {
            var k := IndexOf(part, '.');
            if k < 0 {
              return Err(NoDotInPart(part));
            }
            part := part[..k];
            counts := counts[part := if part in counts then counts[part] + 1 else 1];
            assert (parts + [part])[..|parts|] == parts;
            parts := parts + [part];
          }
        }
        i := i + 1;
      }
      assert nodes[i..] == [];
      assert parts + [] == parts;
      return Ok(counts);
    }

    /** `threadComps.forEach(...)`: one count line per part, in the map's iteration
        order, which is returned as `order`. */
    method PrintCounts(tally: map<string, nat>) returns (ghost order: seq<string>)
      modifies this
      ensures IsEnumeration(order, tally)
      ensures out == old(out) + CountLines(order, tally)
    {
      var keys := tally.Keys;
      order := [];
      while keys != {}
        invariant keys <= tally.Keys
        invariant IsEnumeration(order, tally - keys)
        invariant out == old(out) + CountLines(order, tally - keys)
        decreases keys
      {
        var k :| k in keys;
        out := out + [CountLine(k, tally[k])];
        CountLinesStep(order, tally, keys, k);
        order := order + [k];
        keys := keys - {k};
      }
      assert tally - keys == tally;
    }

    /** The tally of thread `ref` and its count lines, in some iteration order of the
        tally; nothing is printed when the tally fails. */
    method PrintThreadTally(ref: string) returns (tally: Result<map<string, nat>>, ghost order: seq<string>)
      modifies this
      ensures tally == ThreadTally(ThreadNodes(netlist.nets, ref), compMap)
      ensures tally.Err? ==> out == old(out)
      ensures tally.Ok? ==> IsEnumeration(order, tally.value) && out == old(out) + CountLines(order, tally.value)
    {
      var threadNodes := CollectThreadNodes(ref);
      tally := CountThreadComps(threadNodes);
      order := [];
      if tally.Ok? {
        order := PrintCounts(tally.value);
      }
    }

    /** The count lines of `printModules`: for every `thread` component, in component
        order, the count lines of its tally in some iteration order of the tally. */
    method PrintThreadCounts() returns (status: Status, ghost orders: seq<seq<string>>)
      modifies this
      ensures old(out) <= out
      ensures status == StatusOf(ThreadTallies(netlist.components, netlist.nets, compMap))
      ensures status.Done? ==>
        var tallies := ThreadTallies(netlist.components, netlist.nets, compMap).value;
        && Enumerates(orders, tallies)
        && out == old(out) + CountSection(tallies, orders)
    {
      var comps := netlist.components;
      ghost var tallies: seq<map<string, nat>> := [];
      ghost var printed: seq<string> := [];
      orders := [];
      var i := 0;
      assert comps[i..] == comps;
      PrependNothing(ThreadTallies(comps, netlist.nets, compMap));
      while i < |comps|
        invariant 0 <= i <= |comps|
        invariant ThreadTallies(comps, netlist.nets, compMap)
                  == Prepend(tallies, ThreadTallies(comps[i..], netlist.nets, compMap))
        invariant Enumerates(orders, tallies)
        invariant printed == CountSection(tallies, orders)
        invariant out == old(out) + printed
      {
        ThreadTalliesStep(comps, netlist.nets, compMap, i, tallies);
        if comps[i].part == THREAD {
          var tally;
          ghost var order;
          tally, order := PrintThreadTally(comps[i].ref);
          if tally.Err? {
            return Aborted(tally.failure), orders;
          }
          CountSectionAppend(tallies, orders, tally.value, order);
          PrintedAppend(old(out), printed, CountLines(order, tally.value));
          printed := printed + CountLines(order, tally.value);
          tallies := tallies + [tally.value];
          orders := orders + [order];
        }
        i := i + 1;
      }
      assert comps[i..] == [];
      assert tallies + [] == tallies;
      status := Done;
    }

    /** `printModules()`: the section banner, the `loadusr` modules, the `loadrt` modules,
        then the count lines of every thread. */
    method PrintModules() returns (status: Status, ghost orders: seq<seq<string>>)
      requires Indexed()
      modifies this
      ensures old(out) <= out
      ensures status == StatusOf(ThreadTallies(netlist.components, netlist.nets, compMap))
      ensures status.Done? ==>
        var tallies := ThreadTallies(netlist.components, netlist.nets, compMap).value;
        && Enumerates(orders, tallies)
        && out == old(out) + SectionIntro(MODULES_TITLE)
                  + ModuleLoadLines(netlist.components, compMap, LOADUSR)
                  + ModuleLoadLines(netlist.components, compMap, LOADRT)
                  + CountSection(tallies, orders)
    {
      PrintSectionIntro(MODULES_TITLE);
      FindAndPrintModulesToLoad(LOADUSR);
      FindAndPrintModulesToLoad(LOADRT);
      status, orders := PrintThreadCounts();
    }

    /** The hook map of a net (`hooks.put(...)` for every `input` node), or the first
        failure met while building it. */
    method BuildHookMap(nodes: seq<Node>, thread: string, position: string) returns (r: Result<seq<Hook>>)
      ensures r == HookMap(nodes, compMap, netlist.libparts, thread, position)
    {
      var libparts := netlist.libparts;
      var hooks: seq<Hook> := [];
      ghost var pairs: seq<Hook> := [];
      var i := 0;
      assert nodes[i..] == nodes;
      PrependNothing(HookPairs(nodes, compMap, libparts, thread, position));
      while i < |nodes|
        invariant 0 <= i <= |nodes|
        invariant HookPairs(nodes, compMap, libparts, thread, position)
                  == Prepend(pairs, HookPairs(nodes[i..], compMap, libparts, thread, position))
        invariant hooks == PutAll(pairs)
      {
        var node := nodes[i];
        assert nodes[i..][0] == node && nodes[i..][1..] == nodes[i + 1..];
        ghost var first := if node.pintype == INPUT then
                             var name :- HookName(node, compMap, libparts);
                             Ok([Hook(name, AddfLine(name, thread, position))])
                           else Ok([]);
        PrependStep(HookPairs(nodes, compMap, libparts, thread, position), pairs, first,
                    HookPairs(nodes[i + 1..], compMap, libparts, thread, position));
        if node.pintype == INPUT {
          if node.ref !in compMap {
            return Err(UnknownRef(node.ref));
          }
          var hookComp := compMap[node.ref];
          var hookValue;
          if IsLoadrt(hookComp.part) {
            var pf := PinFunction(libparts, node, hookComp.part);
            if pf.Err? {
              return Err(pf.failure);
            }
            hookValue := pf.value;
          } else {
            hookValue := hookComp.value;
          }
          var hook := Hook(hookValue, AddfLine(hookValue, thread, position));
          hooks := Put(hooks, hook);
          assert (pairs + [hook])[..|pairs|] == pairs;
          pairs := pairs + [hook];
        } else {
          assert pairs + [] == pairs;
        }
        i := i + 1;
      }
      assert nodes[i..] == [] && pairs + [] == pairs;
      return Ok(hooks);
    }

    /** The tokens of the first field named `order` or `sequence`, ignoring case. */
    method FindOrderTokens(fields: seq<Field>) returns (tokens: seq<string>)
      ensures tokens == OrderTokens(fields)
    {
      var i := 0;
      while i < |fields|
        invariant 0 <= i <= |fields|
        invariant OrderTokens(fields) == OrderTokens(fields[i..])
      {
        assert fields[i..][0] == fields[i] && fields[i..][1..] == fields[i + 1..];
        if IsOrderField(fields[i]) {
          return Split(fields[i].value);
        }
        i := i + 1;
      }
      return [];
    }

    /** The emission loop of `printThreadHooks`: for each token, an iterator over the
        pending hooks prints and removes those whose name starts with the token; then the
        hooks still pending are printed in map order. */
    method EmitHooks(hooks: seq<Hook>, tokens: seq<string>)
      modifies this
      ensures out == old(out) + Lines(Schedule(hooks, tokens))
    {
      var pending := hooks;
      var t := 0;
      assert tokens[t..] == tokens;
      while t < |tokens|
        invariant 0 <= t <= |tokens|
        invariant old(out) + Lines(Schedule(hooks, tokens)) == out + Lines(Schedule(pending, tokens[t..]))
      {
        ghost var before := out;
        var kept := EmitMatching(pending, tokens[t]);
        assert tokens[t..][0] == tokens[t] && tokens[t..][1..] == tokens[t + 1..];
        ghost var matched := Lines(Matched(pending, tokens[t]));
        ghost var rest := Lines(Schedule(kept, tokens[t + 1..]));
        LinesAppend(Matched(pending, tokens[t]), Schedule(kept, tokens[t + 1..]));
        assert before + (matched + rest) == out + rest;
        pending := kept;
        t := t + 1;
      }
      assert tokens[t..] == [];
      EmitRemaining(pending);
    }

    /** One token of the emission loop: the pending hooks the token prefixes are printed
        in map order, and the others are kept, in map order. */
    method EmitMatching(pending: seq<Hook>, token: string) returns (kept: seq<Hook>)
      modifies this
      ensures kept == Unmatched(pending, token)
      ensures out == old(out) + Lines(Matched(pending, token))
    {
      kept := [];
      var e := 0;
      while e < |pending|
        invariant 0 <= e <= |pending|
        invariant kept == Unmatched(pending[..e], token)
        invariant out == old(out) + Lines(Matched(pending[..e], token))
      {
        assert pending[..e + 1][..e] == pending[..e];
        if StartsWith(pending[e].name, token) {
          LinesAppend(Matched(pending[..e], token), [pending[e]]);
          out := out + [pending[e].line];
        } else {
          kept := kept + [pending[e]];
        }
        e := e + 1;
      }
      assert pending[..e] == pending;
    }

    /** The hooks no token prefixes, printed in map order. */
    method EmitRemaining(pending: seq<Hook>)
      modifies this
      ensures out == old(out) + Lines(pending)
    {
      var e := 0;
      while e < |pending|
        invariant 0 <= e <= |pending|
        invariant out == old(out) + Lines(pending[..e])
      {
        LinesAppend(pending[..e], [pending[e]]);
        assert pending[..e + 1] == pending[..e] + [pending[e]];
        out := out + [pending[e].line];
        e := e + 1;
      }
      assert pending[..e] == pending;
    }

    /** The hooks one net adds to a thread: when the thread has a node on the net, the
        position (the pin function of that node), the hook map, and its emission in the
        order of the thread's `order`/`sequence` field. Nothing is printed for a net that
        fails. */
    method PrintNetHooks(thread: Component, net: Net) returns (status: Status)
      modifies this
      ensures status == StatusOf(NetHookLines(thread, net, compMap, netlist.libparts))
      ensures status.Done? ==> out == old(out) + NetHookLines(thread, net, compMap, netlist.libparts).value
      ensures status.Aborted? ==> out == old(out)
    {
      var nodes := net.nodes;
      var found: Option<Node> := None;
      var j := 0;
      while j < |nodes| && found.None?
        invariant 0 <= j <= |nodes|
        invariant found.None? ==> forall l :: 0 <= l < j ==> nodes[l].ref != thread.ref
        invariant found.Some? ==> found == FirstNodeOf(nodes, thread.ref)
        invariant out == old(out)
      {
        if nodes[j].ref == thread.ref {
          FirstNodeOfIs(nodes, thread.ref, j);
          found := Some(nodes[j]);
        }
        j := j + 1;
      }
      assert found == FirstNodeOf(nodes, thread.ref);
      if found.None? {
        return Done;
      }
      var position := PinFunction(netlist.libparts, found.value, THREAD);
      if position.Err? {
        return Aborted(position.failure);
      }
      var hooks := BuildHookMap(nodes, thread.value, position.value);
      if hooks.Err? {
        return Aborted(hooks.failure);
      }
      if thread.ref !in compMap {
        return Aborted(UnknownRef(thread.ref));
      }
      var tokens := FindOrderTokens(compMap[thread.ref].fields);
      EmitHooks(hooks.value, tokens);
      return Done;
    }

    /** The hooks of a component: those of its nets for a `thread`, none otherwise. */
    method PrintComponentHooks(comp: Component) returns (status: Status)
      modifies this
      ensures status == StatusOf(ComponentHookLines(comp, netlist.nets, compMap, netlist.libparts))
      ensures status.Done? ==> out == old(out) + ComponentHookLines(comp, netlist.nets, compMap, netlist.libparts).value
      ensures old(out) <= out
    {
      if comp.part == THREAD {
        status := PrintThreadNets(comp);
      } else {
        status := Done;
      }
    }

    /** The hooks of one thread over all nets, in net order; the first failure aborts. */
    method PrintThreadNets(thread: Component) returns (status: Status)
      modifies this
      ensures status == StatusOf(ThreadHookLines(thread, netlist.nets, compMap, netlist.libparts))
      ensures status.Done? ==> out == old(out) + ThreadHookLines(thread, netlist.nets, compMap, netlist.libparts).value
      ensures old(out) <= out
    {
      var nets := netlist.nets;
      ghost var libparts := netlist.libparts;
      ghost var idx := compMap;
      ghost var printed: seq<string> := [];
      var i := 0;
      assert nets[i..] == nets;
      PrependNothing(ThreadHookLines(thread, nets, idx, libparts));
      while i < |nets|
        invariant 0 <= i <= |nets|
        invariant ThreadHookLines(thread, nets, idx, libparts) == Prepend(printed, ThreadHookLines(thread, nets[i..], idx, libparts))
        invariant out == old(out) + printed
      {
        ThreadHookLinesStep(thread, nets, idx, libparts, i, printed);
        status := PrintNetHooks(thread, nets[i]);
        if status.Aborted? {
          return;
        }
        PrintedAppend(old(out), printed, NetHookLines(thread, nets[i], idx, libparts).value);
        printed := printed + NetHookLines(thread, nets[i], idx, libparts).value;
        i := i + 1;
      }
      assert nets[i..] == [] && printed + [] == printed;
      return Done;
    }

    /** `printThreadHooks`: the section title, then the hooks of every `thread` component
        in component order. */
    method PrintThreadHooks() returns (status: Status)
      modifies this
      ensures status == StatusOf(HookSection(netlist.components, netlist.nets, compMap, netlist.libparts))
      ensures status.Done? ==>
        out == old(out) + SectionIntro(HOOKS_TITLE)
               + HookSection(netlist.components, netlist.nets, compMap, netlist.libparts).value
      ensures old(out) <= out
    {
      PrintSectionIntro(HOOKS_TITLE);
      status := PrintThreads();
    }

    /** The loop of `printThreadHooks` over the components. */
    method PrintThreads() returns (status: Status)
      modifies this
      ensures status == StatusOf(HookSection(netlist.components, netlist.nets, compMap, netlist.libparts))
      ensures status.Done? ==> out == old(out) + HookSection(netlist.components, netlist.nets, compMap, netlist.libparts).value
      ensures old(out) <= out
    {
      var comps := netlist.components;
      var nets := netlist.nets;
      ghost var libparts := netlist.libparts;
      ghost var idx := compMap;
      ghost var printed: seq<string> := [];
      var i := 0;
      assert comps[i..] == comps;
      PrependNothing(HookSection(comps, nets, idx, libparts));
      while i < |comps|
        invariant 0 <= i <= |comps|
        invariant HookSection(comps, nets, idx, libparts) == Prepend(printed, HookSection(comps[i..], nets, idx, libparts))
        invariant out == old(out) + printed
      {
        HookSectionStep(comps, nets, idx, libparts, i, printed);
        status := PrintComponentHooks(comps[i]);
        if status.Aborted? {
          return;
        }
        PrintedAppend(old(out), printed, ComponentHookLines(comps[i], nets, idx, libparts).value);
        printed := printed + ComponentHookLines(comps[i], nets, idx, libparts).value;
        i := i + 1;
      }
      assert comps[i..] == [] && printed + [] == printed;
      return Done;
    }

    /** The `setp` line of one net, when it is a parameter net: the node loop keeps the
        last `PARAMETER` value and the last pin name it met. Nothing is printed for a net
        that fails. */
    method PrintParameterNet(net: Net) returns (status: Status)
      modifies this
      ensures status == StatusOf(ParameterNetLines(net, compMap, netlist.libparts))
      ensures status.Done? ==> out == old(out) + ParameterNetLines(net, compMap, netlist.libparts).value
      ensures status.Aborted? ==> out == old(out)
    {
      if |net.nodes| != 2 || StartsWith(net.name, "/") {
        return Done;
      }
      var nodes := net.nodes;
      var libparts := netlist.libparts;
      var value: Option<string> := None;
      var pinName: Option<string> := None;
      ghost var roles: seq<Role> := [];
      var i := 0;
      assert nodes[i..] == nodes;
      PrependNothing(ParamRoles(nodes, compMap, libparts));
      while i < |nodes|
        invariant 0 <= i <= |nodes|
        invariant ParamRoles(nodes, compMap, libparts) == Prepend(roles, ParamRoles(nodes[i..], compMap, libparts))
        invariant value == LastLiteral(roles) && pinName == LastTarget(roles)
        invariant out == old(out)
      {
        ParamRolesStep(nodes, compMap, libparts, i, roles);
        var node := nodes[i];
        if node.ref !in compMap {
          return Aborted(UnknownRef(node.ref));
        }
        var comp := compMap[node.ref];
        var role;
        if comp.part == PARAMETER {
          value := Some(comp.value);
          role := Literal(comp.value);
        } else {
          var pf := PinFunction(libparts, node, comp.part);
          if pf.Err? {
            return Aborted(pf.failure);
          }
          if IsLoadrt(comp.part) {
            pinName := Some(pf.value);
          } else {
            pinName := Some(BuildFullName(comp.value, pf.value));
          }
          role := Target(pinName.value);
        }
        LastAfter(roles, role);
        roles := roles + [role];
        i := i + 1;
      }
      assert nodes[i..] == [] && roles + [] == roles;
      if value.Some? && pinName.Some? {
        out := out + [SetpLine(pinName.value, value.value)];
      }
      return Done;
    }

    /** `printParameters`: the section title, then the `setp` line of every parameter net
        in net order. */
    method PrintParameters() returns (status: Status)
      modifies this
      ensures status == StatusOf(ParameterSection(netlist.nets, compMap, netlist.libparts))
      ensures status.Done? ==>
        out == old(out) + SectionIntro(PARAMETERS_TITLE) + ParameterSection(netlist.nets, compMap, netlist.libparts).value
      ensures old(out) <= out
    {
      PrintSectionIntro(PARAMETERS_TITLE);
      var nets := netlist.nets;
      ghost var libparts := netlist.libparts;
      ghost var printed: seq<string> := [];
      ghost var start := out;
      var i := 0;
      assert nets[i..] == nets;
      PrependNothing(ParameterSection(nets, compMap, libparts));
      while i < |nets|
        invariant 0 <= i <= |nets|
        invariant ParameterSection(nets, compMap, libparts) == Prepend(printed, ParameterSection(nets[i..], compMap, libparts))
        invariant out == start + printed
      {
        ParameterSectionStep(nets, compMap, libparts, i, printed);
        status := PrintParameterNet(nets[i]);
        if status.Aborted? {
          return;
        }
        PrintedAppend(old(out), printed, ParameterNetLines(nets[i], compMap, libparts).value);
        printed := printed + ParameterNetLines(nets[i], compMap, libparts).value;
        i := i + 1;
      }
      assert nets[i..] == [] && printed + [] == printed;
      return Done;
    }

    /** The `net` line of a net with a driver and driven pins: `net <name>`, the driver's
        pin and `=>` unless a `PARAMETER` symbol drives the net, then each driven pin.
        `isSignal` tells whether a `PARAMETER` symbol drives the net. */
    method PrintNetLine(name: string, driver: Node, driven: seq<Node>) returns (status: Status, isSignal: bool)
      modifies this
      ensures status == StatusOf(NetLineOf(name, driver, driven, compMap, netlist.libparts))
      ensures status.Done? ==> out == old(out) + [NetLineOf(name, driver, driven, compMap, netlist.libparts).value]
      ensures status.Aborted? ==> out == old(out)
      ensures status.Done? ==> driver.ref in compMap && (isSignal <==> compMap[driver.ref].part == PARAMETER)
    {
      isSignal := false;
      var segment := DriverText(driver);
      if segment.Err? {
        return Aborted(segment.failure), isSignal;
      }
      isSignal := compMap[driver.ref].part == PARAMETER;
      var pins := DrivenText(driven);
      if pins.Err? {
        return Aborted(pins.failure), isSignal;
      }
      out := out + ["net " + name + segment.value + pins.value];
      return Done, isSignal;
    }

    /** The driver part of a `net` line: nothing for a `PARAMETER` symbol, otherwise the
        full name of the driver's pin and `=>`. */
    method DriverText(driver: Node) returns (segment: Result<string>)
      ensures segment == DriverSegment(driver, compMap, netlist.libparts)
      ensures segment.Ok? ==> driver.ref in compMap
    {
      if driver.ref !in compMap {
        return Err(UnknownRef(driver.ref));
      }
      var outputComp := compMap[driver.ref];
      if outputComp.part == PARAMETER {
        return Ok("");
      }
      var pf := PinFunction(netlist.libparts, driver, outputComp.part);
      if pf.Err? {
        return Err(pf.failure);
      }
      return Ok(" " + BuildFullName(outputComp.value, pf.value) + " =>");
    }

    /** The loop over the driven pins of a `net` line: each pin's full name after a space;
        the first pin that cannot be named aborts the line. */
    method DrivenText(driven: seq<Node>) returns (text: Result<string>)
      ensures var pins := DrivenPins(driven, compMap, netlist.libparts);
        text == if pins.Ok? then Ok(JoinPins(pins.value)) else Err(pins.failure)
    {
      var libparts := netlist.libparts;
      var line := "";
      ghost var pins: seq<string> := [];
      var j := 0;
      while j < |driven|
        invariant 0 <= j <= |driven|
        invariant |pins| == j
        invariant forall k :: 0 <= k < j ==> PinFullName(driven[k], compMap, libparts) == Ok(pins[k])
        invariant line == JoinPins(pins)
      {
        var pinName := PinText(driven[j]);
        if pinName.Err? {
          DrivenPinsFailsAt(driven, compMap, libparts, j);
          return Err(pinName.failure);
        }
        JoinPinsAppend(pins, pinName.value);
        line := line + " " + pinName.value;
        pins := pins + [pinName.value];
        j := j + 1;
      }
      DrivenPinsAllOk(driven, compMap, libparts, pins);
      return Ok(line);
    }

    /** The full name of a driven pin: its component's value and the pin's function. */
    method PinText(node: Node) returns (pinName: Result<string>)
      ensures pinName == PinFullName(node, compMap, netlist.libparts)
    {
      if node.ref !in compMap {
        return Err(UnknownRef(node.ref));
      }
      var inputComp := compMap[node.ref];
      var pf := PinFunction(netlist.libparts, node, inputComp.part);
      if pf.Err? {
        return Err(pf.failure);
      }
      return Ok(BuildFullName(inputComp.value, pf.value));
    }

    /** The node loop of a named net: the first `output` becomes the driver, every
        further `output` prints a warning, and the other nodes are the driven pins. */
    method ClassifyNodes(name: string, nodes: seq<Node>) returns (output: Option<Node>, inputs: seq<Node>)
      modifies this
      ensures output == FirstOutput(nodes) && inputs == NonOutputs(nodes)
      ensures out == old(out) + Warnings(name, OutputCount(nodes))
    {
      output := None;
      inputs := [];
      var i := 0;
      while i < |nodes|
        invariant 0 <= i <= |nodes|
        invariant output == FirstOutput(nodes[..i]) && inputs == NonOutputs(nodes[..i])
        invariant out == old(out) + Warnings(name, OutputCount(nodes[..i]))
      {
        ClassifyStep(nodes, name, i);
        if IsOutput(nodes[i]) {
          if output.None? {
            output := Some(nodes[i]);
          } else {
            out := out + [MultipleOutputsWarning(name)];
          }
        } else {
          inputs := inputs + [nodes[i]];
        }
        i := i + 1;
      }
      assert nodes[..i] == nodes;
    }

    /** One net of `printNetsAndSignals`: for a named net, its warnings and then either
        the no-suitable-pins note or the `net` line. `signal` is the driver when a
        `PARAMETER` symbol drives a net that got its `net` line. */
    method PrintWiringNet(net: Net) returns (status: Status, signal: Option<Node>)
      modifies this
      ensures status == StatusOf(WiringNetLines(net, compMap, netlist.libparts))
      ensures status.Done? ==> out == old(out) + WiringNetLines(net, compMap, netlist.libparts).value
      ensures status.Done? ==> signal == SignalOf(net, compMap)
      ensures old(out) <= out
    {
      if |net.nodes| < 2 || !StartsWith(net.name, "/") {
        return Done, None;
      }
      var name := net.name[1..];
      var output, inputs := ClassifyNodes(name, net.nodes);
      if output.None? || inputs == [] {
        out := out + [NoSuitablePins(name)];
        return Done, None;
      }
      var isSignal;
      status, isSignal := PrintNetLine(name, output.value, inputs);
      signal := if isSignal then Some(output.value) else None;
    }

    /** The net loop of `printNetsAndSignals`: the lines of every net in net order, and
        the signal table (`signalNet.put(net.getName(), outputNode)`). */
    method PrintWiringNets() returns (status: Status, signals: map<string, Node>)
      modifies this
      ensures status == StatusOf(WiringSection(netlist.nets, compMap, netlist.libparts))
      ensures status.Done? ==> out == old(out) + WiringSection(netlist.nets, compMap, netlist.libparts).value
      ensures status.Done? ==> signals == SignalTable(netlist.nets, compMap)
      ensures old(out) <= out
    {
      var nets := netlist.nets;
      ghost var libparts := netlist.libparts;
      ghost var printed: seq<string> := [];
      signals := map[];
      var i := 0;
      assert nets[i..] == nets;
      PrependNothing(WiringSection(nets, compMap, libparts));
      while i < |nets|
        invariant 0 <= i <= |nets|
        invariant WiringSection(nets, compMap, libparts) == Prepend(printed, WiringSection(nets[i..], compMap, libparts))
        invariant out == old(out) + printed
        invariant signals == SignalTable(nets[..i], compMap)
      {
        WiringSectionStep(nets, compMap, libparts, i, printed);
        SignalTableStep(nets, compMap, i);
        var signal;
        status, signal := PrintWiringNet(nets[i]);
        if status.Aborted? {
          return;
        }
        if signal.Some? {
          signals := signals[nets[i].name := signal.value];
        }
        PrintedAppend(old(out), printed, WiringNetLines(nets[i], compMap, libparts).value);
        printed := printed + WiringNetLines(nets[i], compMap, libparts).value;
        i := i + 1;
      }
      assert nets[i..] == [] && printed + [] == printed;
      assert nets[..i] == nets;
      return Done, signals;
    }

    /** `signalNet.forEach(...)`: one `sets` line per signal, in some iteration order of
        the table, with the value of the symbol that drives it. */
    method PrintSignals(signals: map<string, Node>) returns (ghost order: seq<string>)
      requires SignalsKnown(signals, compMap)
      modifies this
      ensures IsEnumeration(order, signals)
      ensures out == old(out) + SetsLines(order, signals, compMap)
    {
      var keys := signals.Keys;
      order := [];
      while keys != {}
        invariant keys <= signals.Keys
        invariant IsEnumeration(order, signals - keys)
        invariant out == old(out) + SetsLines(order, signals - keys, compMap)
        decreases keys
      {
        var k :| k in keys;
        var comp := compMap[signals[k].ref];
        out := out + [SetsLine(k, comp.value)];
        assert (order + [k])[..|order|] == order;
        assert (signals - (keys - {k})) - {k} == signals - keys;
        order := order + [k];
        keys := keys - {k};
      }
      assert signals - keys == signals;
    }

    /** `printNetsAndSignals`: the net section, then, when some net is driven by a
        `PARAMETER` symbol, the signal section with its `sets` lines. */
    method PrintNetsAndSignals() returns (status: Status, ghost order: seq<string>)
      modifies this
      ensures status == StatusOf(WiringSection(netlist.nets, compMap, netlist.libparts))
      ensures status.Done? ==>
        var table := SignalTable(netlist.nets, compMap);
        && IsEnumeration(order, table) && SignalsKnown(table, compMap)
        && out == old(out) + SectionIntro(NETS_TITLE) + WiringSection(netlist.nets, compMap, netlist.libparts).value
                  + (if |table| > 0 then SectionIntro(SIGNALS_TITLE) else [])
                  + SetsLines(order, table, compMap)
      ensures old(out) <= out
    {
      order := [];
      PrintSectionIntro(NETS_TITLE);
      var signals;
      status, signals := PrintWiringNets();
      if status.Aborted? {
        return;
      }
      ghost var before := out;
      if |signals| > 0 {
        PrintSectionIntro(SIGNALS_TITLE);
      }
      assert out == before + (if |signals| > 0 then SectionIntro(SIGNALS_TITLE) else []);
      SignalTableParams(netlist.nets, compMap);
      order := PrintSignals(signals);
    }

    /** The sections in the order the command line tool prints them after the header:
        modules, thread hooks, parameters, then nets and signals. The first exception ends
        the translation. */
    method Translate() returns (status: Status, ghost countOrders: seq<seq<string>>, ghost signalOrder: seq<string>)
      requires Indexed()
      modifies this
      ensures old(out) <= out
      ensures var modules := StatusOf(ThreadTallies(netlist.components, netlist.nets, compMap));
              var hooks := StatusOf(HookSection(netlist.components, netlist.nets, compMap, netlist.libparts));
              var parameters := StatusOf(ParameterSection(netlist.nets, compMap, netlist.libparts));
              var nets := StatusOf(WiringSection(netlist.nets, compMap, netlist.libparts));
              status == if modules.Aborted? then modules else if hooks.Aborted? then hooks
                        else if parameters.Aborted? then parameters else nets
      ensures status.Done? ==>
        var tallies := ThreadTallies(netlist.components, netlist.nets, compMap).value;
        var table := SignalTable(netlist.nets, compMap);
        && Enumerates(countOrders, tallies)
        && IsEnumeration(signalOrder, table) && SignalsKnown(table, compMap)
        && out == old(out)
                  + SectionIntro(MODULES_TITLE)
                  + ModuleLoadLines(netlist.components, compMap, LOADUSR)
                  + ModuleLoadLines(netlist.components, compMap, LOADRT)
                  + CountSection(tallies, countOrders)
                  + SectionIntro(HOOKS_TITLE) + HookSection(netlist.components, netlist.nets, compMap, netlist.libparts).value
                  + SectionIntro(PARAMETERS_TITLE) + ParameterSection(netlist.nets, compMap, netlist.libparts).value
                  + SectionIntro(NETS_TITLE) + WiringSection(netlist.nets, compMap, netlist.libparts).value
                  + (if |table| > 0 then SectionIntro(SIGNALS_TITLE) else [])
                  + SetsLines(signalOrder, table, compMap)
    {
      signalOrder := [];
      status, countOrders := PrintModules();
      if status.Aborted? {
        return;
      }
      status := PrintThreadHooks();
      if status.Aborted? {
        return;
      }
      status := PrintParameters();
      if status.Aborted? {
        return;
      }
      status, signalOrder := PrintNetsAndSignals();
    }
  }
}
