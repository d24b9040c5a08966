/** The module loader: which `loadusr`/`loadrt` components are printed and in what order,
    and how many instances of each thread-driven realtime part are loaded per thread. */
module ModuleLoader {
  import opened Text
  import opened Netlist
  import opened Output
  import opened Pins

  // ---------------------------------------------------------------------------
  // getNumber and the sort of the module references
  // ---------------------------------------------------------------------------

  /** Java `int` arithmetic: the result of an operation reduced into 32-bit two's complement. */
  function Wrap32(x: int): int {
    (x + 0x8000_0000) % 0x1_0000_0000 - 0x8000_0000
  }

  function DigitValue(c: char): int
    requires IsDigit(c)
  {
    c as int - '0' as int
  }

  /** One turn of the loop of `getNumber`: a digit `d` does `num *= 10 + d`. */
  function NumberStep(num: int, c: char): int {
    if IsDigit(c) then Wrap32(num * (10 + DigitValue(c))) else num
  }

  /** `getNumber(s)` as written: the accumulator starts at 0 and is only ever multiplied. */
  function NumberKey(s: string): int {
    if s == [] then 0 else NumberStep(NumberKey(s[..|s| - 1]), s[|s| - 1])
  }

  /** The sort key of every reference is 0 (`U12` included): the multiplication by
      `10 + digit` never moves the accumulator away from its initial 0. */
  lemma {:induction false} NumberKeyIsZero(s: string)
    ensures NumberKey(s) == 0
  {
    if s != [] {
      NumberKeyIsZero(s[..|s| - 1]);
    }
  }

  /** Descending order of `key`, the comparator `(o1, o2) -> key(o2) - key(o1)`. */
  predicate SortedDesc(s: seq<string>, key: string -> int) {
    forall i, j :: 0 <= i < j < |s| ==> key(s[i]) >= key(s[j])
  }

  /** Inserts `x` into a sorted list after every element whose key is at least its own. */
  function InsertDesc(x: string, sorted: seq<string>, key: string -> int): seq<string> {
    if sorted == [] || key(sorted[|sorted| - 1]) >= key(x) then sorted + [x]
    else InsertDesc(x, sorted[..|sorted| - 1], key) + [sorted[|sorted| - 1]]
  }

  /** `List.sort` with a comparator by descending `key`: a stable sort, written as an
      insertion sort (stable sorts all give this result). */
  function SortDesc(s: seq<string>, key: string -> int): seq<string> {
    if s == [] then [] else InsertDesc(s[|s| - 1], SortDesc(s[..|s| - 1], key), key)
  }

  lemma {:induction false} InsertDescPermutes(x: string, t: seq<string>, key: string -> int)
    ensures multiset(InsertDesc(x, t, key)) == multiset(t) + multiset{x}
  {
    if !(t == [] || key(t[|t| - 1]) >= key(x)) {
      var n := |t| - 1;
      InsertDescPermutes(x, t[..n], key);
      assert t == t[..n] + [t[n]];
    }
  }

  lemma {:induction false} InsertDescSorted(x: string, t: seq<string>, key: string -> int)
    requires SortedDesc(t, key)
    ensures SortedDesc(InsertDesc(x, t, key), key)
  {
    if !(t == [] || key(t[|t| - 1]) >= key(x)) {
      var n := |t| - 1;
      var u := InsertDesc(x, t[..n], key);
      assert SortedDesc(t[..n], key);
      InsertDescSorted(x, t[..n], key);
      InsertDescPermutes(x, t[..n], key);
      forall i | 0 <= i < |u|
        ensures key(u[i]) >= key(t[n])
      {
        assert u[i] in multiset(u);
        if u[i] != x {
          assert u[i] in multiset(t[..n]);
          var k :| 0 <= k < n && t[..n][k] == u[i];
          assert t[k] == u[i];
        }
      }
      var v := u + [t[n]];
      assert InsertDesc(x, t, key) == v;
      forall i, j | 0 <= i < j < |v|
        ensures key(v[i]) >= key(v[j])
      {
        assert v[i] == u[i];
        if j < |u| {
          assert v[j] == u[j];
        }
      }
    }
  }

  /** The sort returns its input reordered, in descending key order. */
  lemma {:induction false} SortDescSortsAndPermutes(s: seq<string>, key: string -> int)
    ensures multiset(SortDesc(s, key)) == multiset(s)
    ensures SortedDesc(SortDesc(s, key), key)
  {
    if s != [] {
      var n := |s| - 1;
      SortDescSortsAndPermutes(s[..n], key);
      InsertDescPermutes(s[n], SortDesc(s[..n], key), key);
      InsertDescSorted(s[n], SortDesc(s[..n], key), key);
      assert s == s[..n] + [s[n]];
    }
  }

  /** Because every `getNumber` key is 0, every comparison is a tie and the stable sort
      keeps the references in the order it found them. */
  lemma {:induction false} SortDescIsIdentity(s: seq<string>)
    ensures SortDesc(s, NumberKey) == s
  {
    if s != [] {
      var n := |s| - 1;
      SortDescIsIdentity(s[..n]);
      NumberKeyIsZero(s[n]);
      if n > 0 {
        NumberKeyIsZero(s[n - 1]);
      }
      assert s == s[..n] + [s[n]];
    }
  }

  // ---------------------------------------------------------------------------
  // findAndPrintModulesToLoad
  // ---------------------------------------------------------------------------

  /** The references of the components whose part starts with `prefix`, in list order. */
  function ModuleRefs(comps: seq<Component>, prefix: string): seq<string> {
    if comps == [] then []
    else
      var last := comps[|comps| - 1];
      ModuleRefs(comps[..|comps| - 1], prefix) + (if StartsWith(last.part, prefix) then [last.ref] else [])
  }

  lemma {:induction false} ModuleRefsAreRefs(comps: seq<Component>, prefix: string)
    ensures forall r :: r in ModuleRefs(comps, prefix) ==> exists i :: 0 <= i < |comps| && comps[i].ref == r
  {
    if comps != [] {
      var n := |comps| - 1;
      ModuleRefsAreRefs(comps[..n], prefix);
      forall r | r in ModuleRefs(comps, prefix)
        ensures exists i :: 0 <= i < |comps| && comps[i].ref == r
      {
        if r in ModuleRefs(comps[..n], prefix) {
          var i :| 0 <= i < n && comps[..n][i].ref == r;
          assert comps[i].ref == r;
        } else {
          assert comps[n].ref == r;
        }
      }
    }
  }

  /** The values the index holds for the given references, in order. */
  function ValuesOf(idx: map<string, Component>, refs: seq<string>): seq<string>
    requires forall r :: r in refs ==> r in idx
  {
    if refs == [] then []
    else ValuesOf(idx, refs[..|refs| - 1]) + [idx[refs[|refs| - 1]].value]
  }

  /** The lines printed by `findAndPrintModulesToLoad(..., prefix)`: the collected references,
      sorted, each replaced by the value of the component the index holds for it. */
  function ModuleLoadLines(comps: seq<Component>, idx: map<string, Component>, prefix: string): seq<string>
    requires forall i :: 0 <= i < |comps| ==> comps[i].ref in idx
  {
    SortedModuleRefsIndexed(comps, idx, prefix);
    ValuesOf(idx, SortDesc(ModuleRefs(comps, prefix), NumberKey))
  }

  lemma SortedModuleRefsIndexed(comps: seq<Component>, idx: map<string, Component>, prefix: string)
    requires forall i :: 0 <= i < |comps| ==> comps[i].ref in idx
    ensures forall r :: r in SortDesc(ModuleRefs(comps, prefix), NumberKey) ==> r in idx
  {
    ModuleRefsAreRefs(comps, prefix);
    SortDescSortsAndPermutes(ModuleRefs(comps, prefix), NumberKey);
    forall r | r in SortDesc(ModuleRefs(comps, prefix), NumberKey)
      ensures r in idx
    {
      assert r in multiset(SortDesc(ModuleRefs(comps, prefix), NumberKey));
      assert r in ModuleRefs(comps, prefix);
    }
  }

  /** The values of the components whose part starts with `prefix`, in list order. */
  function ValuesWithPrefix(comps: seq<Component>, prefix: string): seq<string> {
    if comps == [] then []
    else
      var last := comps[|comps| - 1];
      ValuesWithPrefix(comps[..|comps| - 1], prefix) + (if StartsWith(last.part, prefix) then [last.value] else [])
  }

  lemma {:induction false} ValuesOfModuleRefs(comps: seq<Component>, idx: map<string, Component>, prefix: string)
    requires forall i :: 0 <= i < |comps| ==> comps[i].ref in idx && idx[comps[i].ref] == comps[i]
    ensures forall r :: r in ModuleRefs(comps, prefix) ==> r in idx
    ensures ValuesOf(idx, ModuleRefs(comps, prefix)) == ValuesWithPrefix(comps, prefix)
  {
    ModuleRefsAreRefs(comps, prefix);
    if comps != [] {
      var n := |comps| - 1;
      ValuesOfModuleRefs(comps[..n], idx, prefix);
      var refs := ModuleRefs(comps[..n], prefix);
      if StartsWith(comps[n].part, prefix) {
        assert (refs + [comps[n].ref])[..|refs|] == refs;
      } else {
        assert ModuleRefs(comps, prefix) == refs;
      }
    }
  }

  /** With unique references, the module lines are exactly the values of the components
      whose part starts with `prefix`: each printed once, in component-list order. */
  lemma ModulesPrintedOnceInOrder(comps: seq<Component>, prefix: string)
    requires RefsUnique(comps)
    ensures forall i :: 0 <= i < |comps| ==> comps[i].ref in Index(comps)
    ensures ModuleLoadLines(comps, Index(comps), prefix) == ValuesWithPrefix(comps, prefix)
  {
    forall i | 0 <= i < |comps|
      ensures comps[i].ref in Index(comps) && Index(comps)[comps[i].ref] == comps[i]
    {
      IndexFindsEach(comps, i);
    }
    SortDescIsIdentity(ModuleRefs(comps, prefix));
    ValuesOfModuleRefs(comps, Index(comps), prefix);
  }

  // ---------------------------------------------------------------------------
  // Thread-driven realtime components
  // ---------------------------------------------------------------------------

  predicate HasRef(nodes: seq<Node>, ref: string) {
    exists i :: 0 <= i < |nodes| && nodes[i].ref == ref
  }

  /** All nodes of every net that has a node of component `ref`, in net order. */
  function ThreadNodes(nets: seq<Net>, ref: string): seq<Node> {
    if nets == [] then []
    else
      var last := nets[|nets| - 1];
      ThreadNodes(nets[..|nets| - 1], ref) + (if HasRef(last.nodes, ref) then last.nodes else [])
  }

  /** `part.substring(0, part.indexOf("."))`: the part name without its instance suffix;
      a part without a dot makes `substring` throw. */
  function BarePart(part: string): (r: Result<string>)
    ensures r.Ok? <==> '.' in part
    ensures r.Ok? ==> '.' !in r.value && StartsWith(part, r.value + ".")
  {
    var k := IndexOf(part, '.');
    if k < 0 then Err(NoDotInPart(part))
    else
      assert part[..k + 1] == part[..k] + ".";
      Ok(part[..k])
  }

  /** What one node adds to a thread's tally: nothing unless it is an `input` of a part
      that has no `loadrt` line of its own; then its bare part name. */
  function NodePart(node: Node, idx: map<string, Component>): Result<seq<string>> {
    if node.pintype != INPUT then Ok([])
    else
      var comp :- Lookup(idx, node.ref);
      if IsLoadrt(comp.part) then Ok([])
      else
        var bare :- BarePart(comp.part);
        Ok([bare])
  }

  /** The bare part names a thread's nodes contribute, in node order; the first fatal
      failure, in node order, otherwise. */
  function BareParts(nodes: seq<Node>, idx: map<string, Component>): Result<seq<string>> {
    if nodes == [] then Ok([])
    else
      var first :- NodePart(nodes[0], idx);
      Prepend(first, BareParts(nodes[1..], idx))
  }

  /** The `HashMap<String, AtomicInteger>` of the tally: `putIfAbsent(part, 1)`, else increment. */
  function CountMap(parts: seq<string>): map<string, nat> {
    if parts == [] then map[]
    else
      var m := CountMap(parts[..|parts| - 1]);
      var p := parts[|parts| - 1];
      m[p := if p in m then m[p] + 1 else 1]
  }

  /** The tally holds one entry per distinct part, and its count is how often the part occurs. */
  lemma {:induction false} CountMapCounts(parts: seq<string>)
    ensures forall p :: p in CountMap(parts) <==> p in parts
    ensures forall p :: p in CountMap(parts) ==> CountMap(parts)[p] == multiset(parts)[p]
  {
    if parts != [] {
      var n := |parts| - 1;
      CountMapCounts(parts[..n]);
      assert parts == parts[..n] + [parts[n]];
      assert multiset(parts) == multiset(parts[..n]) + multiset{parts[n]};
      forall p
        ensures p in CountMap(parts) <==> p in parts
      {
        if p in parts && p != parts[n] {
          var i :| 0 <= i < |parts| && parts[i] == p;
          assert parts[..n][i] == p;
        }
      }
    }
  }

  /** The node is counted under bare part name `p` in a thread's tally. */
  predicate CountsAs(node: Node, idx: map<string, Component>, p: string) {
    node.pintype == INPUT && node.ref in idx && !IsLoadrt(idx[node.ref].part)
      && BarePart(idx[node.ref].part) == Ok(p)
  }

  /** How many of the nodes are counted under `p`. */
  function CountFor(nodes: seq<Node>, idx: map<string, Component>, p: string): nat {
    if nodes == [] then 0
    else (if CountsAs(nodes[0], idx, p) then 1 else 0) + CountFor(nodes[1..], idx, p)
  }

  lemma {:induction false} BarePartsCount(nodes: seq<Node>, idx: map<string, Component>, p: string)
    requires BareParts(nodes, idx).Ok?
    ensures multiset(BareParts(nodes, idx).value)[p] == CountFor(nodes, idx, p)
  {
    if nodes != [] {
      var first := NodePart(nodes[0], idx).value;
      BarePartsCount(nodes[1..], idx, p);
      assert BareParts(nodes, idx).value == first + BareParts(nodes[1..], idx).value;
    }
  }

  /** The tally of one thread: the count of each bare part among its nodes. */
  function ThreadTally(nodes: seq<Node>, idx: map<string, Component>): Result<map<string, nat>> {
    var parts :- BareParts(nodes, idx);
    Ok(CountMap(parts))
  }

  /** A successful tally has an entry for exactly the bare part names of the `input` nodes
      of non-`loadrt` parts, and counts for each how many such nodes there are. */
  lemma TallyCounts(nodes: seq<Node>, idx: map<string, Component>)
    requires ThreadTally(nodes, idx).Ok?
    ensures var m := ThreadTally(nodes, idx).value;
      forall p :: (p in m <==> CountFor(nodes, idx, p) > 0) && (p in m ==> m[p] == CountFor(nodes, idx, p))
  {
    var parts := BareParts(nodes, idx).value;
    CountMapCounts(parts);
    forall p
      ensures multiset(parts)[p] == CountFor(nodes, idx, p)
    {
      BarePartsCount(nodes, idx, p);
    }
  }

  /** One tally per `thread` component, in component order; the first failure otherwise. */
  function ThreadTallies(comps: seq<Component>, nets: seq<Net>, idx: map<string, Component>)
    : Result<seq<map<string, nat>>>
  {
    if comps == [] then Ok([])
    else
      var first :- if comps[0].part == THREAD then
                     var m :- ThreadTally(ThreadNodes(nets, comps[0].ref), idx);
                     Ok([m])
                   else Ok([]);
      Prepend(first, ThreadTallies(comps[1..], nets, idx))
  }

  /** `out.format("loadrt %-20s count=%d", part, n)`. */
  function CountLine(part: string, n: nat): string {
    "loadrt " + PadRight(part, 20) + " count=" + Decimal(n)
  }

  /** Each tally is listed by its own iteration order. */
  predicate Enumerates(orders: seq<seq<string>>, tallies: seq<map<string, nat>>) {
    |orders| == |tallies| && forall i :: 0 <= i < |tallies| ==> IsEnumeration(orders[i], tallies[i])
  }

  /** The count lines of a tally, in the given iteration order. */
  function CountLines(order: seq<string>, m: map<string, nat>): seq<string>
    requires IsEnumeration(order, m)
    decreases |order|
  {
    if order == [] then []
    else
      var k := order[|order| - 1];
      CountLines(order[..|order| - 1], m - {k}) + [CountLine(k, m[k])]
  }

  /** One more key printed by a loop that consumes the keys of a tally. */
  lemma CountLinesStep(order: seq<string>, m: map<string, nat>, keys: set<string>, k: string)
    requires keys <= m.Keys && k in keys && IsEnumeration(order, m - keys)
    ensures IsEnumeration(order + [k], m - (keys - {k}))
    ensures CountLines(order + [k], m - (keys - {k})) == CountLines(order, m - keys) + [CountLine(k, m[k])]
  {
    assert (order + [k])[..|order|] == order;
    assert (m - (keys - {k})) - {k} == m - keys;
  }

  lemma {:induction false} CountLinesLength(order: seq<string>, m: map<string, nat>)
    requires IsEnumeration(order, m)
    ensures |CountLines(order, m)| == |order|
    decreases |order|
  {
    if order != [] {
      CountLinesLength(order[..|order| - 1], m - {order[|order| - 1]});
    }
  }

  lemma {:induction false} CountLineAt(order: seq<string>, m: map<string, nat>, i: nat)
    requires IsEnumeration(order, m) && i < |order|
    ensures order[i] in m && |CountLines(order, m)| == |order|
    ensures CountLines(order, m)[i] == CountLine(order[i], m[order[i]])
    decreases |order|
  {
    var n := |order| - 1;
    var k := order[n];
    CountLinesLength(order, m);
    if i < n {
      EnumerationListsKeys(order, m);
      CountLineAt(order[..n], m - {k}, i);
      assert order[i] == order[..n][i] && order[i] != k;
    }
  }

  /** One count line per part of the tally, carrying the part's count. */
  lemma CountLinesContent(order: seq<string>, m: map<string, nat>)
    requires IsEnumeration(order, m)
    ensures |CountLines(order, m)| == |order|
    ensures forall i :: 0 <= i < |order| ==> order[i] in m && CountLines(order, m)[i] == CountLine(order[i], m[order[i]])
  {
    CountLinesLength(order, m);
    forall i | 0 <= i < |order|
      ensures order[i] in m && CountLines(order, m)[i] == CountLine(order[i], m[order[i]])
    {
      CountLineAt(order, m, i);
    }
  }

  /** One step of a loop over the components that has produced `done` of the tallies:
      a `thread` component adds its tally or makes the whole fail, any other adds nothing. */
  lemma ThreadTalliesStep(comps: seq<Component>, nets: seq<Net>, idx: map<string, Component>, i: nat,
                          done: seq<map<string, nat>>)
    requires i < |comps|
    requires ThreadTallies(comps, nets, idx) == Prepend(done, ThreadTallies(comps[i..], nets, idx))
    ensures comps[i].part != THREAD ==>
      ThreadTallies(comps, nets, idx) == Prepend(done, ThreadTallies(comps[i + 1..], nets, idx))
    ensures comps[i].part == THREAD ==>
      var tally := ThreadTally(ThreadNodes(nets, comps[i].ref), idx);
      ThreadTallies(comps, nets, idx)
      == if tally.Err? then Err(tally.failure) else Prepend(done + [tally.value], ThreadTallies(comps[i + 1..], nets, idx))
  {
    assert comps[i..][0] == comps[i] && comps[i..][1..] == comps[i + 1..];
    var rest := ThreadTallies(comps[i + 1..], nets, idx);
    PrependNothing(rest);
    PrependPrepend(done, [], rest);
    assert done + [] == done;
    if comps[i].part == THREAD {
      var tally := ThreadTally(ThreadNodes(nets, comps[i].ref), idx);
      if tally.Ok? {
        PrependPrepend(done, [tally.value], rest);
      }
    }
  }

  /** The count lines of all threads, each tally in its own iteration order. */
  function CountSection(tallies: seq<map<string, nat>>, orders: seq<seq<string>>): seq<string>
    requires Enumerates(orders, tallies)
  {
    if tallies == [] then []
    else
      var n := |tallies| - 1;
      assert IsEnumeration(orders[n], tallies[n]);
      assert Enumerates(orders[..n], tallies[..n]);
      CountSection(tallies[..n], orders[..n]) + CountLines(orders[n], tallies[n])
  }

  lemma CountSectionAppend(tallies: seq<map<string, nat>>, orders: seq<seq<string>>,
                           tally: map<string, nat>, order: seq<string>)
    requires Enumerates(orders, tallies) && IsEnumeration(order, tally)
    ensures Enumerates(orders + [order], tallies + [tally])
    ensures CountSection(tallies + [tally], orders + [order]) == CountSection(tallies, orders) + CountLines(order, tally)
  {
    var n := |tallies|;
    assert (tallies + [tally])[..n] == tallies && (orders + [order])[..n] == orders;
  }
}
