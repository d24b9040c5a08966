/** Pin resolution: the pin function of a node, the `loadrt` classification of a part,
    and the full HAL pin name of a component pin. */
module Pins {
  import opened Text
  import opened Netlist

  /** A part that is loaded as a realtime module by its own `loadrt` line. */
  predicate IsLoadrt(part: string) {
    StartsWith(part, LOADRT)
  }

  /** The name of the first pin in the table whose number is `num`. */
  function FindPin(pins: seq<Pin>, num: string): (r: Option<string>)
    ensures r.None? <==> forall j :: 0 <= j < |pins| ==> pins[j].num != num
    ensures r.Some? ==>
      exists j :: 0 <= j < |pins| && pins[j].num == num
                  && pins[j].name == r.value && forall l :: 0 <= l < j ==> pins[l].num != num
  {
    if pins == [] then None
    else if pins[0].num == num then Some(pins[0].name)
    else
      var r := FindPin(pins[1..], num);
      if r.Some? then
        ghost var j :| 0 <= j < |pins| - 1 && pins[1..][j].num == num
          && pins[1..][j].name == r.value && forall l :: 0 <= l < j ==> pins[1..][l].num != num;
        assert pins[j + 1].num == num && forall l :: 0 <= l < j + 1 ==> pins[l].num != num;
        r
      else
        r
  }

  /** Library part `lp` is named `part` and has a pin numbered `num`. */
  predicate HasPin(lp: LibPart, part: string, num: string) {
    lp.part == part && FindPin(lp.pins, num).Some?
  }

  /** The search of `getPinFunction`: every library part named `part`, in list order, and
      in each its pins in table order; the first pin numbered `num` wins, so a later part
      of the same name is consulted when an earlier one lacks the pin. */
  function FindInLibParts(libparts: seq<LibPart>, part: string, num: string): (r: Option<string>)
    ensures r.None? <==> forall i :: 0 <= i < |libparts| ==> !HasPin(libparts[i], part, num)
    ensures r.Some? ==>
      exists i :: 0 <= i < |libparts| && HasPin(libparts[i], part, num)
                  && r == FindPin(libparts[i].pins, num)
                  && forall l :: 0 <= l < i ==> !HasPin(libparts[l], part, num)
  {
    if libparts == [] then None
    else if HasPin(libparts[0], part, num) then FindPin(libparts[0].pins, num)
    else
      var r := FindInLibParts(libparts[1..], part, num);
      if r.Some? then
        ghost var i :| 0 <= i < |libparts| - 1 && HasPin(libparts[1..][i], part, num)
          && r == FindPin(libparts[1..][i].pins, num)
          && forall l :: 0 <= l < i ==> !HasPin(libparts[1..][l], part, num);
        assert forall l :: 0 <= l < i + 1 ==> !HasPin(libparts[l], part, num) by {
          forall l | 0 < l < i + 1
            ensures !HasPin(libparts[l], part, num)
          {
            assert libparts[l] == libparts[1..][l - 1];
          }
        }
        r
      else
        assert forall i :: 0 < i < |libparts| ==> libparts[i] == libparts[1..][i - 1];
        r
  }

  /** `getPinFunction(node, part)`: the pin function written on the node when there is one;
      otherwise the name of the first pin numbered like the node's pin in the first library
      part named `part` that has one; fatal when no such part has the pin. */
  function PinFunction(libparts: seq<LibPart>, node: Node, part: string): (r: Result<string>)
    ensures node.pinfunction.Some? ==> r == Ok(node.pinfunction.value)
    ensures node.pinfunction.None? ==>
      (r.Err? <==> forall i :: 0 <= i < |libparts| ==> !HasPin(libparts[i], part, node.pin))
    ensures r.Err? ==> r.failure == NoSuchPin(part, node.pin)
    ensures node.pinfunction.None? && r.Ok? ==>
      exists i :: 0 <= i < |libparts| && HasPin(libparts[i], part, node.pin)
                  && FindPin(libparts[i].pins, node.pin) == Some(r.value)
                  && forall l :: 0 <= l < i ==> !HasPin(libparts[l], part, node.pin)
  {
    if node.pinfunction.Some? then Ok(node.pinfunction.value)
    else
      match FindInLibParts(libparts, part, node.pin)
      case Some(name) => Ok(name)
      case None => Err(NoSuchPin(part, node.pin))
  }

  /** `buildFullName(value, pin)`: the HAL name of a pin of the component with that value. */
  function BuildFullName(compName: string, pinName: string): string {
    if StartsWith(compName, BB_GPIO) then BB_GPIO + pinName
    else if EndsWith(compName, ".") then compName + pinName
    else compName + "." + pinName
  }

  /** Every full name is a component prefix ending in `.` followed by the pin function;
      the prefix is the shared `bb_gpio.` bank for GPIO components, and the component's
      value itself when it already ends in `.`, and the value with one `.` added otherwise. */
  lemma FullNameShape(compName: string, pinName: string)
    ensures var r := BuildFullName(compName, pinName);
      exists prefix :: r == prefix + pinName && |prefix| > 0 && prefix[|prefix| - 1] == '.'
                       && (StartsWith(compName, BB_GPIO) ==> prefix == BB_GPIO)
                       && (!StartsWith(compName, BB_GPIO) ==> prefix == compName || prefix == compName + ".")
                       && (!StartsWith(compName, BB_GPIO) ==>
                             (prefix == compName <==> |compName| > 0 && compName[|compName| - 1] == '.'))
  {
    var r := BuildFullName(compName, pinName);
    if StartsWith(compName, BB_GPIO) {
      assert r == BB_GPIO + pinName;
    } else if EndsWith(compName, ".") {
      assert compName[|compName| - 1] == compName[|compName| - 1..][0];
      assert r == compName + pinName;
    } else {
      assert r == (compName + ".") + pinName;
    }
  }
}
